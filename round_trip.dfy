/**
 * buildTree undoes flattenTree: rebuilding a flattened forest with unique ids
 * gives back the same forest, each node now also carrying the parentId,
 * depth and index fields that flattening gave it.
 */
module RoundTrip {
  import opened Types
  import opened FlatOrder
  import opened TreeCodec

  /** The forest with each node tagged with its flattening fields, as buildTree leaves it. */
  function Annotate(ts: seq<TreeItem>, parentId: Option<Id>, depth: int, index: int): seq<TreeItem>
    decreases ts
  {
    if ts == [] then []
    else
      [ts[0].(children := Annotate(ts[0].children, Some(ts[0].id), depth + 1, 0),
              place := Some(Place(parentId, depth, index)))]
      + Annotate(ts[1..], parentId, depth, index + 1)
  }

  /** The forest without any flattening fields on its nodes. */
  function Strip(ts: seq<TreeItem>): seq<TreeItem>
    decreases ts
  {
    if ts == [] then []
    else [ts[0].(children := Strip(ts[0].children), place := None)] + Strip(ts[1..])
  }

  /** Tagging changes nothing but the flattening fields: ids, labels, flags, order and nesting stay. */
  lemma {:induction false} AnnotateKeepsShape(ts: seq<TreeItem>, parentId: Option<Id>, depth: int, index: int)
    ensures Strip(Annotate(ts, parentId, depth, index)) == Strip(ts)
    decreases ts
  {
    if ts != [] {
      AnnotateKeepsShape(ts[0].children, Some(ts[0].id), depth + 1, 0);
      AnnotateKeepsShape(ts[1..], parentId, depth, index + 1);
    }
  }

  // ---------------------------------------------------------------------------
  // Positions by depth
  // ---------------------------------------------------------------------------

  /** The positions between `lo` and `hi` whose depth is `x`, in order. */
  function DepthIndices(s: seq<FlattenedItem>, x: int, lo: nat, hi: nat): (r: seq<nat>)
    requires hi <= |s|
    ensures forall k :: 0 <= k < |r| ==> lo <= r[k] < hi
    decreases hi
  {
    if hi <= lo then []
    else DepthIndices(s, x, lo, hi - 1) + (if s[hi - 1].depth == x then [hi - 1] else [])
  }

  lemma {:induction false} DepthIndicesSplit(s: seq<FlattenedItem>, x: int, lo: nat, mid: nat, hi: nat)
    requires lo <= mid <= hi <= |s|
    ensures DepthIndices(s, x, lo, hi) == DepthIndices(s, x, lo, mid) + DepthIndices(s, x, mid, hi)
    decreases hi
  {
    if hi > mid {
      DepthIndicesSplit(s, x, lo, mid, hi - 1);
    }
  }

  lemma {:induction false} DepthIndicesNone(s: seq<FlattenedItem>, x: int, lo: nat, hi: nat)
    requires hi <= |s|
    requires forall c :: lo <= c < hi ==> s[c].depth != x
    ensures DepthIndices(s, x, lo, hi) == []
    decreases hi
  {
    if hi > lo {
      DepthIndicesNone(s, x, lo, hi - 1);
    }
  }

  // ---------------------------------------------------------------------------
  // Parents of a well-nested list with unique ids
  // ---------------------------------------------------------------------------

  /** The list item `i` belongs to by the nesting rule: root at depth 0, else the nearest item one level up. */
  function NestingParent(s: seq<FlattenedItem>, i: nat): Option<Ref>
    requires i < |s|
  {
    if s[i].depth == 0 then Some(RootRef)
    else match LastAtDepth(s, i, s[i].depth - 1)
      case Some(c) => Some(ItemRef(c))
      case None => None
  }

  ghost predicate DistinctIds(s: seq<FlattenedItem>)
  {
    forall i, j :: 0 <= i < j < |s| ==> s[i].item.id != s[j].item.id
  }

  /**
   * In a well-nested list with distinct ids, none of them "root", buildTree
   * attaches every item where the nesting rule says.
   */
  lemma ParentOfNested(s: seq<FlattenedItem>, i: nat)
    requires WellNested(s) && DistinctIds(s) && i < |s|
    requires forall j :: 0 <= j < |s| ==> s[j].item.id != RootId
    ensures ParentOf(s, i) == NestingParent(s, i) && ParentOf(s, i).Some?
  {
    ParentBefore(s, i);
    var key := ParentKey(s[i]);
    if s[i].depth > 0 {
      var c := LastAtDepth(s, i, s[i].depth - 1).value;
      assert key == s[c].item.id;
      assert LastWithId(s, key, i) == Some(c);
    } else {
      assert LastWithId(s, key, i).None?;
    }
  }

  /** An item goes to the top level exactly when it is at depth 0. */
  lemma RootFlag(s: seq<FlattenedItem>, i: nat)
    requires i < |s| && ParentOf(s, i) == NestingParent(s, i)
    ensures ChildFlags(s, RootRef)[i] == DepthFlags(s, 0)[i]
  {
  }

  /** The root's children are the items at depth 0. */
  lemma RootChildren(s: seq<FlattenedItem>)
    requires forall i :: 0 <= i < |s| ==> ParentOf(s, i) == NestingParent(s, i)
    ensures ChildIndices(s, RootRef, 0, |s|) == DepthIndices(s, 0, 0, |s|)
  {
    var f := ChildFlags(s, RootRef);
    var g := DepthFlags(s, 0);
    forall i | 0 <= i < |s| ensures f[i] == g[i] {
      RootFlag(s, i);
    }
    assert f == g;
    ChildIndicesMarked(s, RootRef, |s|);
    DepthIndicesMarked(s, 0, 0, |s|);
  }

  /**
   * Item `j` heads a run of deeper items ending at `e`. The items that
   * name it as their parent are exactly those of the run one level deeper.
   */
  lemma RunChild(s: seq<FlattenedItem>, j: nat, e: nat, i: nat)
    requires WellNested(s) && j < e <= |s| && i < |s|
    requires forall c :: j < c < e ==> s[c].depth > s[j].depth
    requires e < |s| ==> s[e].depth <= s[j].depth
    ensures NestingParent(s, i) == Some(ItemRef(j)) <==> j < i < e && s[i].depth == s[j].depth + 1
  {
    if NestingParent(s, i) == Some(ItemRef(j)) {
      RunChildInside(s, j, e, i);
    }
    if j < i < e && s[i].depth == s[j].depth + 1 {
      RunChildNamed(s, j, e, i);
    }
  }

  /** An item naming `j` as its parent lies within `j`'s run, one level deeper. */
  lemma RunChildInside(s: seq<FlattenedItem>, j: nat, e: nat, i: nat)
    requires WellNested(s) && j < e <= |s| && i < |s|
    requires e < |s| ==> s[e].depth <= s[j].depth
    requires NestingParent(s, i) == Some(ItemRef(j))
    ensures j < i < e && s[i].depth == s[j].depth + 1
  {
    ParentBefore(s, i);
    assert s[i].depth > 0 && LastAtDepth(s, i, s[i].depth - 1) == Some(j);
    if i >= e {
      assert s[e].depth <= s[j].depth < s[i].depth;
      Climb(s, e, i, s[j].depth);
    }
  }

  /** An item of `j`'s run one level deeper than `j` names `j` as its parent. */
  lemma RunChildNamed(s: seq<FlattenedItem>, j: nat, e: nat, i: nat)
    requires WellNested(s) && j < i < e <= |s|
    requires forall c :: j < c < e ==> s[c].depth > s[j].depth
    requires s[i].depth == s[j].depth + 1
    ensures NestingParent(s, i) == Some(ItemRef(j))
  {
    ParentBefore(s, j);
    var c := LastAtDepth(s, i, s[j].depth);
    assert c.Some? && c.value >= j;
  }

  /** The positions in [lo, hi) whose flag is set, in order. */
  function Marked(flags: seq<bool>, lo: nat, hi: nat): seq<nat>
    requires hi <= |flags|
    decreases hi
  {
    if hi <= lo then [] else Marked(flags, lo, hi - 1) + (if flags[hi - 1] then [hi - 1] else [])
  }

  /** Flags set exactly inside (j, e) where `g` is set list the same positions as `g` there. */
  lemma {:induction false} MarkedRun(f: seq<bool>, g: seq<bool>, j: nat, e: nat, hi: nat)
    requires |f| == |g| && j < e <= |f| && hi <= |f|
    requires forall i :: 0 <= i < |f| ==> (f[i] <==> j < i < e && g[i])
    ensures Marked(f, 0, hi) == Marked(g, j + 1, if hi < e then hi else e)
    decreases hi
  {
    if hi > 0 {
      var i := hi - 1;
      MarkedRun(f, g, j, e, i);
      if j < i < e {
        assert Marked(g, j + 1, hi) == Marked(g, j + 1, i) + (if g[i] then [i] else []);
      } else if i <= j {
        assert Marked(g, j + 1, hi) == [];
      }
    }
  }

  /** Whether each item is pushed into the children list `r`. */
  function ChildFlags(s: seq<FlattenedItem>, r: Ref): seq<bool>
  {
    seq(|s|, i requires 0 <= i < |s| => ParentOf(s, i) == Some(r))
  }

  /** Whether each item sits at depth `x`. */
  function DepthFlags(s: seq<FlattenedItem>, x: int): seq<bool>
  {
    seq(|s|, i requires 0 <= i < |s| => s[i].depth == x)
  }

  lemma {:induction false} ChildIndicesMarked(s: seq<FlattenedItem>, r: Ref, hi: nat)
    requires hi <= |s|
    ensures ChildIndices(s, r, 0, hi) == Marked(ChildFlags(s, r), 0, hi)
    decreases hi
  {
    if hi > 0 {
      ChildIndicesMarked(s, r, hi - 1);
      assert ChildFlags(s, r)[hi - 1] == (ParentOf(s, hi - 1) == Some(r));
    }
  }

  lemma {:induction false} DepthIndicesMarked(s: seq<FlattenedItem>, x: int, lo: nat, hi: nat)
    requires hi <= |s|
    ensures DepthIndices(s, x, lo, hi) == Marked(DepthFlags(s, x), lo, hi)
    decreases hi
  {
    if hi > lo {
      DepthIndicesMarked(s, x, lo, hi - 1);
    }
  }

  /** Flags set exactly at the items one level deeper within the run of `j` mark those items. */
  lemma RunChildren(s: seq<FlattenedItem>, j: nat, e: nat, f: seq<bool>)
    requires j < e <= |s| && |f| == |s|
    requires forall i :: 0 <= i < |s| ==> (f[i] <==> j < i < e && s[i].depth == s[j].depth + 1)
    ensures Marked(f, 0, |s|) == DepthIndices(s, s[j].depth + 1, j + 1, e)
  {
    var g := DepthFlags(s, s[j].depth + 1);
    DepthIndicesMarked(s, s[j].depth + 1, j + 1, e);
    MarkedRun(f, g, j, e, |s|);
  }

  // ---------------------------------------------------------------------------
  // The round trip
  // ---------------------------------------------------------------------------

  lemma {:induction false} FlattenHeight(ts: seq<TreeItem>, parentId: Option<Id>, depth: int, index: int)
    ensures |Flatten(ts, parentId, depth, index)| >= Height(ts)
    decreases ts
  {
    if ts != [] {
      FlattenHeight(ts[0].children, Some(ts[0].id), depth + 1, 0);
      FlattenHeight(ts[1..], parentId, depth, index + 1);
    }
  }

  /** `b` occurs in `s` starting at position `o`. */
  ghost predicate Occurs(s: seq<FlattenedItem>, b: seq<FlattenedItem>, o: nat)
  {
    o + |b| <= |s| && forall i :: 0 <= i < |b| ==> s[o + i] == b[i]
  }

  /** The pieces of a flattened block that occurs at offset `o` of `s`. */
  lemma BlockParts(s: seq<FlattenedItem>, ts: seq<TreeItem>, parentId: Option<Id>, depth: int, index: int, o: nat)
    requires ts != []
    requires Occurs(s, Flatten(ts, parentId, depth, index), o)
    ensures var kids := Flatten(ts[0].children, Some(ts[0].id), depth + 1, 0);
      var rest := Flatten(ts[1..], parentId, depth, index + 1);
      && |Flatten(ts, parentId, depth, index)| == 1 + |kids| + |rest|
      && s[o] == FlattenedItem(ts[0], parentId, depth, index)
      && Occurs(s, kids, o + 1)
      && Occurs(s, rest, o + 1 + |kids|)
  {
    var kids := Flatten(ts[0].children, Some(ts[0].id), depth + 1, 0);
    var rest := Flatten(ts[1..], parentId, depth, index + 1);
    var b := Flatten(ts, parentId, depth, index);
    assert b == [FlattenedItem(ts[0], parentId, depth, index)] + kids + rest;
    assert s[o + 0] == b[0];
    forall i | 0 <= i < |kids| ensures s[o + 1 + i] == kids[i] {
      assert s[o + (1 + i)] == b[1 + i];
    }
    forall i | 0 <= i < |rest| ensures s[o + 1 + |kids| + i] == rest[i] {
      assert s[o + (1 + |kids| + i)] == b[1 + |kids| + i];
    }
  }

  /** Item `j` heads a run of deeper items that ends at `e`. */
  ghost predicate RunTo(s: seq<FlattenedItem>, j: nat, e: nat)
  {
    && j < e <= |s|
    && (forall c :: j < c < e ==> s[c].depth > s[j].depth)
    && (e < |s| ==> s[e].depth <= s[j].depth)
  }

  /** Each item's children are the items one level deeper within its run. */
  ghost predicate ChildrenByRuns(s: seq<FlattenedItem>, table: seq<seq<nat>>)
    requires |table| == |s|
  {
    forall j: nat, e: nat :: RunTo(s, j, e) ==> table[j] == DepthIndices(s, s[j].depth + 1, j + 1, e)
  }

  lemma ChildTableByRuns(s: seq<FlattenedItem>)
    requires WellNested(s)
    requires forall i :: 0 <= i < |s| ==> ParentOf(s, i) == NestingParent(s, i)
    ensures TableFor(s, ChildTable(s)) && ChildrenByRuns(s, ChildTable(s))
  {
    forall j: nat, e: nat | RunTo(s, j, e)
      ensures ChildTable(s)[j] == DepthIndices(s, s[j].depth + 1, j + 1, e)
    {
      var f := ChildFlags(s, ItemRef(j));
      forall i | 0 <= i < |s| ensures f[i] <==> j < i < e && s[i].depth == s[j].depth + 1 {
        RunChild(s, j, e, i);
      }
      ChildIndicesMarked(s, ItemRef(j), |s|);
      RunChildren(s, j, e, f);
    }
  }

  /** The top level of a run of positions: its head, then the top level after the head's subtree. */
  lemma TopLevelSplit(s: seq<FlattenedItem>, depth: int, o: nat, e: nat, m: nat)
    requires o < e <= m <= |s| && s[o].depth == depth
    requires forall c :: o < c < e ==> s[c].depth > depth
    ensures DepthIndices(s, depth, o, m) == [o] + DepthIndices(s, depth, e, m)
  {
    DepthIndicesSplit(s, depth, o, e, m);
    DepthIndicesHead(s, depth, o, e);
  }

  /** A run that starts at depth `depth` and stays deeper has one item at that depth: its first. */
  lemma {:induction false} DepthIndicesHead(s: seq<FlattenedItem>, depth: int, o: nat, e: nat)
    requires o < e <= |s| && s[o].depth == depth
    requires forall c :: o < c < e ==> s[c].depth > depth
    ensures DepthIndices(s, depth, o, e) == [o]
    decreases e
  {
    if e == o + 1 {
      assert DepthIndices(s, depth, o, e) == DepthIndices(s, depth, o, o) + [o];
    } else {
      DepthIndicesHead(s, depth, o, e - 1);
      assert DepthIndices(s, depth, o, e) == DepthIndices(s, depth, o, e - 1) + [];
    }
  }

  lemma AssembleCons(s: seq<FlattenedItem>, table: seq<seq<nat>>, o: nat, rest: seq<nat>, fuel: nat)
    requires TableFor(s, table) && o < |s| && fuel > 0
    requires forall k :: 0 <= k < |rest| ==> rest[k] < |s|
    ensures AssembleList(s, table, [o] + rest, fuel)
         == [AssembleNode(s, table, o, fuel)] + AssembleList(s, table, rest, fuel)
  {
    assert ([o] + rest)[1..] == rest;
  }

  /**
   * The head of a flattened block at offset `o` starts a run that ends where
   * its next sibling, or whatever follows the block, begins.
   */
  lemma BlockRun(s: seq<FlattenedItem>, ts: seq<TreeItem>, parentId: Option<Id>, depth: int, index: int, o: nat, n: nat)
    requires ts != []
    requires n == |Flatten(ts, parentId, depth, index)|
    requires Occurs(s, Flatten(ts, parentId, depth, index), o)
    requires o + n < |s| ==> s[o + n].depth <= depth
    ensures var e := o + 1 + |Flatten(ts[0].children, Some(ts[0].id), depth + 1, 0)|;
      && RunTo(s, o, e) && e <= o + n
      && DepthIndices(s, depth, o, o + n) == [o] + DepthIndices(s, depth, e, o + n)
  {
    var kids := Flatten(ts[0].children, Some(ts[0].id), depth + 1, 0);
    var rest := Flatten(ts[1..], parentId, depth, index + 1);
    var e := o + 1 + |kids|;
    BlockParts(s, ts, parentId, depth, index, o);
    FlattenDepths(ts[0].children, Some(ts[0].id), depth + 1, 0);
    forall c | o < c < e ensures s[c].depth > depth {
      assert s[o + 1 + (c - o - 1)] == kids[c - o - 1];
    }
    if e < |s| {
      if rest != [] {
        assert s[e + 0] == rest[0];
      } else {
        assert e == o + n;
      }
    }
    TopLevelSplit(s, depth, o, e, o + n);
  }

  /** What the rebuild of a non-empty flattened block needs to know about its first node. */
  lemma BlockStep(s: seq<FlattenedItem>, table: seq<seq<nat>>, ts: seq<TreeItem>,
                  parentId: Option<Id>, depth: int, index: int, o: nat, n: nat, lists: seq<nat>)
    requires TableFor(s, table) && ChildrenByRuns(s, table) && ts != []
    requires n == |Flatten(ts, parentId, depth, index)|
    requires Occurs(s, Flatten(ts, parentId, depth, index), o)
    requires o + n < |s| ==> s[o + n].depth <= depth
    requires lists == DepthIndices(s, depth, o, o + n)
    ensures var kids := Flatten(ts[0].children, Some(ts[0].id), depth + 1, 0);
      var rest := Flatten(ts[1..], parentId, depth, index + 1);
      var e := o + 1 + |kids|;
      && n == 1 + |kids| + |rest|
      && s[o] == FlattenedItem(ts[0], parentId, depth, index)
      && Occurs(s, kids, o + 1) && Occurs(s, rest, e)
      && (e < |s| ==> s[e].depth <= depth)
      && table[o] == DepthIndices(s, depth + 1, o + 1, e)
      && lists == [o] + DepthIndices(s, depth, e, o + n)
  {
    BlockParts(s, ts, parentId, depth, index, o);
    BlockRun(s, ts, parentId, depth, index, o, n);
  }

  /** One step of the rebuild: a node assembled from its children, followed by its assembled siblings. */
  lemma AssembleHead(s: seq<FlattenedItem>, table: seq<seq<nat>>, ts: seq<TreeItem>,
                     parentId: Option<Id>, depth: int, index: int, o: nat, tail: seq<nat>, fuel: nat)
    requires TableFor(s, table) && o < |s| && fuel > 0 && ts != []
    requires s[o] == FlattenedItem(ts[0], parentId, depth, index)
    requires AssembleList(s, table, table[o], fuel - 1) == Annotate(ts[0].children, Some(ts[0].id), depth + 1, 0)
    requires forall k :: 0 <= k < |tail| ==> tail[k] < |s|
    requires AssembleList(s, table, tail, fuel) == Annotate(ts[1..], parentId, depth, index + 1)
    ensures AssembleList(s, table, [o] + tail, fuel) == Annotate(ts, parentId, depth, index)
  {
    AssembleCons(s, table, o, tail, fuel);
  }

  /**
   * Rebuilding the positions of a flattened block's top level gives back
   * the block's forest, tagged.
   */
  lemma {:induction false} AssembleBlock(s: seq<FlattenedItem>, table: seq<seq<nat>>, ts: seq<TreeItem>,
                                          parentId: Option<Id>, depth: int, index: int, o: nat, n: nat, lists: seq<nat>, fuel: nat)
    requires TableFor(s, table) && ChildrenByRuns(s, table)
    requires n == |Flatten(ts, parentId, depth, index)|
    requires Occurs(s, Flatten(ts, parentId, depth, index), o)
    requires o + n < |s| ==> s[o + n].depth <= depth
    requires fuel >= Height(ts)
    requires lists == DepthIndices(s, depth, o, o + n)
    ensures AssembleList(s, table, lists, fuel) == Annotate(ts, parentId, depth, index)
    decreases ts, 1
  {
    if ts == [] {
      assert lists == [];
    } else {
      var e := o + 1 + |Flatten(ts[0].children, Some(ts[0].id), depth + 1, 0)|;
      var tail := DepthIndices(s, depth, e, o + n);
      BlockStep(s, table, ts, parentId, depth, index, o, n, lists);
      AssembleKids(s, table, ts, parentId, depth, index, o, n, fuel);
      AssembleRest(s, table, ts, parentId, depth, index, o, n, fuel);
      AssembleHead(s, table, ts, parentId, depth, index, o, tail, fuel);
    }
  }

  /** The first node's children, rebuilt. */
  lemma {:induction false} AssembleKids(s: seq<FlattenedItem>, table: seq<seq<nat>>, ts: seq<TreeItem>,
                                         parentId: Option<Id>, depth: int, index: int, o: nat, n: nat, fuel: nat)
    requires TableFor(s, table) && ChildrenByRuns(s, table) && ts != []
    requires n == |Flatten(ts, parentId, depth, index)|
    requires Occurs(s, Flatten(ts, parentId, depth, index), o)
    requires o + n < |s| ==> s[o + n].depth <= depth
    requires fuel >= Height(ts)
    ensures fuel > 0 && o < |s|
    ensures AssembleList(s, table, table[o], fuel - 1) == Annotate(ts[0].children, Some(ts[0].id), depth + 1, 0)
    decreases ts, 0
  {
    var kids := Flatten(ts[0].children, Some(ts[0].id), depth + 1, 0);
    BlockStep(s, table, ts, parentId, depth, index, o, n, DepthIndices(s, depth, o, o + n));
    AssembleBlock(s, table, ts[0].children, Some(ts[0].id), depth + 1, 0, o + 1, |kids|, table[o], fuel - 1);
  }

  /** The later siblings of the first node, rebuilt. */
  lemma {:induction false} AssembleRest(s: seq<FlattenedItem>, table: seq<seq<nat>>, ts: seq<TreeItem>,
                                         parentId: Option<Id>, depth: int, index: int, o: nat, n: nat, fuel: nat)
    requires TableFor(s, table) && ChildrenByRuns(s, table) && ts != []
    requires n == |Flatten(ts, parentId, depth, index)|
    requires Occurs(s, Flatten(ts, parentId, depth, index), o)
    requires o + n < |s| ==> s[o + n].depth <= depth
    requires fuel >= Height(ts)
    ensures var e := o + 1 + |Flatten(ts[0].children, Some(ts[0].id), depth + 1, 0)|;
      e <= o + n &&
      AssembleList(s, table, DepthIndices(s, depth, e, o + n), fuel) == Annotate(ts[1..], parentId, depth, index + 1)
    decreases ts, 0
  {
    var kids := Flatten(ts[0].children, Some(ts[0].id), depth + 1, 0);
    var rest := Flatten(ts[1..], parentId, depth, index + 1);
    var e := o + 1 + |kids|;
    BlockStep(s, table, ts, parentId, depth, index, o, n, DepthIndices(s, depth, o, o + n));
    AssembleBlock(s, table, ts[1..], parentId, depth, index + 1, e, |rest|, DepthIndices(s, depth, e, o + n), fuel);
  }

  /** A flattened forest with unique ids, none "root", has its parents where the nesting rule says. */
  lemma FlattenedParents(t: seq<TreeItem>)
    requires UniqueIds(t) && RootId !in NodeIds(t)
    ensures WellNested(FlattenTree(t)) && DistinctIds(FlattenTree(t))
    ensures forall j :: 0 <= j < |FlattenTree(t)| ==> FlattenTree(t)[j].item.id != RootId
    ensures forall i :: 0 <= i < |FlattenTree(t)| ==>
      ParentOf(FlattenTree(t), i) == NestingParent(FlattenTree(t), i) && ParentOf(FlattenTree(t), i).Some?
  {
    var s := FlattenTree(t);
    FlattenTreeWellNested(t);
    FlattenListsPreOrder(t, None, 0, 0);
    var p := PreOrder(t);
    assert DistinctIds(s) by {
      forall i, j | 0 <= i < j < |s| ensures s[i].item.id != s[j].item.id {
        assert s[i].item == p[i] && s[j].item == p[j];
      }
    }
    assert forall j :: 0 <= j < |s| ==> s[j].item.id != RootId by {
      forall j | 0 <= j < |s| ensures s[j].item.id != RootId {
        assert s[j].item == p[j] && p[j] in p;
      }
    }
    forall i | 0 <= i < |s| ensures ParentOf(s, i) == NestingParent(s, i) && ParentOf(s, i).Some? {
      ParentOfNested(s, i);
    }
  }

  /**
   * For a flattened forest the rebuild succeeds, its top level is the
   * depth-0 items and each children list is the run one level deeper.
   */
  lemma FlattenedBuild(t: seq<TreeItem>)
    requires UniqueIds(t) && RootId !in NodeIds(t)
    ensures var s := FlattenTree(t);
      && BuildTreeSpec(s) == Ok(AssembleList(s, ChildTable(s), DepthIndices(s, 0, 0, |s|), |s|))
      && TableFor(s, ChildTable(s)) && ChildrenByRuns(s, ChildTable(s))
  {
    var s := FlattenTree(t);
    FlattenedParents(t);
    assert FirstUnresolved(s, 0).None?;
    RootChildren(s);
    ChildTableByRuns(s);
  }

  /** Assembling a flattened forest from a table of its runs gives the forest back, annotated. */
  lemma AssembleWhole(t: seq<TreeItem>, table: seq<seq<nat>>)
    requires TableFor(FlattenTree(t), table) && ChildrenByRuns(FlattenTree(t), table)
    ensures var s := FlattenTree(t);
      AssembleList(s, table, DepthIndices(s, 0, 0, |s|), |s|) == Annotate(t, None, 0, 0)
  {
    var s := FlattenTree(t);
    FlattenHeight(t, None, 0, 0);
    assert Occurs(s, s, 0);
    AssembleBlock(s, table, t, None, 0, 0, 0, |s|, DepthIndices(s, 0, 0, |s|), |s|);
  }

  /**
   * The round trip: for a forest whose ids are unique and never "root",
   * buildTree(flattenTree(t)) succeeds and gives back t, every node tagged
   * with its parentId, depth and sibling index.
   */
  lemma BuildAfterFlatten(t: seq<TreeItem>)
    requires UniqueIds(t) && RootId !in NodeIds(t)
    ensures BuildTreeSpec(FlattenTree(t)) == Ok(Annotate(t, None, 0, 0))
  {
    FlattenedBuild(t);
    AssembleWhole(t, ChildTable(FlattenTree(t)));
  }

  /** Rebuilding a flattened forest loses nothing but adds the flattening fields. */
  lemma BuildAfterFlattenKeepsShape(t: seq<TreeItem>)
    requires UniqueIds(t) && RootId !in NodeIds(t)
    ensures BuildTreeSpec(FlattenTree(t)).Ok?
    ensures Strip(BuildTreeSpec(FlattenTree(t)).value) == Strip(t)
  {
    BuildAfterFlatten(t);
    AnnotateKeepsShape(t, None, 0, 0);
  }
}

/**
 * When buildTree fails, and where it attaches an item whose parent is odd:
 * listed later, or the synthetic root's own id.
 */
module BuildOutcome {
  import opened Types
  import opened TreeCodec

  /** An item's parent cannot be resolved: neither "root" nor the id of any item of the list. */
  predicate Dangling(flat: seq<FlattenedItem>, i: nat)
    requires i < |flat|
  {
    ParentKey(flat[i]) != RootId && FindIndex(flat, ParentKey(flat[i])).None?
  }

  lemma UnresolvedIsDangling(flat: seq<FlattenedItem>, i: nat)
    requires i < |flat|
    ensures ParentOf(flat, i).None? <==> Dangling(flat, i)
  {
    var key := ParentKey(flat[i]);
    if FindIndex(flat, key).None? {
      assert LastWithId(flat, key, i).None?;
    }
  }

  /**
   * buildTree fails exactly when some item's parent is dangling, and then
   * reports the parent key of the first such item.
   */
  lemma BuildFailsIff(flat: seq<FlattenedItem>)
    ensures BuildTreeSpec(flat).Err? <==> exists i :: 0 <= i < |flat| && Dangling(flat, i)
    ensures BuildTreeSpec(flat).Err? ==>
      exists i :: (0 <= i < |flat| && Dangling(flat, i)
        && BuildTreeSpec(flat).error == ParentKey(flat[i])
        && forall k :: 0 <= k < i ==> !Dangling(flat, k))
  {
    forall i | 0 <= i < |flat| ensures ParentOf(flat, i).None? <==> Dangling(flat, i) {
      UnresolvedIsDangling(flat, i);
    }
  }

  /**
   * A parent that appears only later in the list is still found (by the
   * `findItem` fallback): the item goes into that later item's children.
   */
  lemma LaterParentAccepted(flat: seq<FlattenedItem>, i: nat, j: nat)
    requires i < j < |flat| && flat[i].parentId == Some(flat[j].item.id)
    requires flat[j].item.id != RootId
    requires forall k :: 0 <= k < j ==> flat[k].item.id != flat[j].item.id
    ensures ParentOf(flat, i) == Some(ItemRef(j))
  {
    assert LastWithId(flat, flat[j].item.id, i).None?;
  }

  /**
   * An item whose id is "root" takes over the synthetic root's entry in the
   * `nodes` record: every later root-level item is pushed into that item's
   * children instead of the returned top level.
   */
  lemma RootIdCaptures(flat: seq<FlattenedItem>, j: nat, i: nat)
    requires j < i < |flat| && flat[j].item.id == RootId && flat[i].parentId.None?
    requires forall k :: j < k < i ==> flat[k].item.id != RootId
    ensures ParentOf(flat, i) == Some(ItemRef(j))
    ensures forall lo: nat :: lo <= i ==> i !in ChildIndices(flat, RootRef, lo, |flat|)
  {
    assert LastWithId(flat, RootId, i) == Some(j);
  }
}
