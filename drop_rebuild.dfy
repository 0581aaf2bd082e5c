/**
 * What buildTree makes of the list a drop hands it (the commit branch of
 * `handleDragEnd` in src/SortableTree/SortableTree.tsx). The active item of
 * the flattened tree gets a new parent and moves; its subtree stays where
 * it was in the list. As long as the new parent lies outside the moved
 * subtree, the rebuild succeeds and keeps every id exactly once. The moved
 * item also keeps its children, in their order.
 */
module DropRebuild {
  import opened Types
  import opened FlatOrder
  import opened TreeCodec
  import opened RoundTrip
  import opened TreeSearch
  import opened TreeStructure
  import opened Rebuild
  import opened DropComposition

  // ---------------------------------------------------------------------------
  // Positions before and after the move
  // ---------------------------------------------------------------------------

  /** Where the item at `k` after the move was before it, when the item at `a` moved to `o`. */
  function Origin(n: nat, a: nat, o: nat, k: nat): (i: nat)
    requires a < n && o < n && k < n
    ensures i < n && (i == a <==> k == o)
  {
    if k == o then a
    else
      var r := if k < o then k else k - 1;
      if r < a then r else r + 1
  }

  /** Where the item at `i` before the move ends up. */
  function Target(n: nat, a: nat, o: nat, i: nat): (k: nat)
    requires a < n && o < n && i < n
    ensures k < n && (k == o <==> i == a) && Origin(n, a, o, k) == i
  {
    if i == a then o
    else
      var r := if i < a then i else i - 1;
      if r < o then r else r + 1
  }

  lemma TargetOrigin(n: nat, a: nat, o: nat, k: nat)
    requires a < n && o < n && k < n
    ensures Target(n, a, o, Origin(n, a, o, k)) == k
  {
  }

  /** `sorted` is `flat` with the item at `a` moved to `o` and given the parent `pid`. */
  ghost predicate Moved(flat: seq<FlattenedItem>, sorted: seq<FlattenedItem>, a: nat, o: nat, pid: Option<Id>)
  {
    && |sorted| == |flat| && a < |flat| && o < |flat|
    && sorted[o].item == flat[a].item && sorted[o].parentId == pid
    && RemoveAt(sorted, o) == RemoveAt(flat, a)
  }

  /** Position `r` of a list with `a` taken out is where the item at `r` of the moved list, skipping `o`, came from. */
  lemma RemovedAt<T>(s: seq<T>, a: nat, o: nat, r: nat)
    requires a < |s| && o < |s| && r < |s| - 1
    ensures RemoveAt(s, a)[r] == s[Origin(|s|, a, o, if r < o then r else r + 1)]
  {
  }

  /** Every item after the move is the item it came from; all but the moved one unchanged. */
  lemma MovedAt(flat: seq<FlattenedItem>, sorted: seq<FlattenedItem>, a: nat, o: nat, pid: Option<Id>, k: nat)
    requires Moved(flat, sorted, a, o, pid) && k < |sorted|
    ensures sorted[k].item == flat[Origin(|flat|, a, o, k)].item
    ensures k != o ==> sorted[k] == flat[Origin(|flat|, a, o, k)]
  {
    if k != o {
      var r := if k < o then k else k - 1;
      assert sorted[k] == RemoveAt(sorted, o)[r];
      assert RemoveAt(flat, a)[r] == flat[Origin(|flat|, a, o, k)];
    }
  }

  // ---------------------------------------------------------------------------
  // The flattened tree before the move
  // ---------------------------------------------------------------------------

  /** A flattened forest with distinct ids, none of them "root", in which `a` heads the run that ends at `e`. */
  ghost predicate Before(flat: seq<FlattenedItem>, a: nat, e: nat)
  {
    && WellNested(flat) && DistinctIds(flat)
    && (forall j :: 0 <= j < |flat| ==> flat[j].item.id != RootId)
    && RunTo(flat, a, e)
  }

  /** The position of the parent of an item below the top level. */
  ghost function ParentPos(flat: seq<FlattenedItem>, i: nat): (c: nat)
    requires WellNested(flat) && i < |flat| && flat[i].depth > 0
    ensures c < i && flat[c].depth == flat[i].depth - 1
    ensures flat[i].parentId == Some(flat[c].item.id)
    ensures NestingParent(flat, i) == Some(ItemRef(c))
  {
    ParentBefore(flat, i);
    LastAtDepth(flat, i, flat[i].depth - 1).value
  }

  /** An item other than `a` lies in `a`'s run exactly when its parent does. */
  lemma InRunIffParent(flat: seq<FlattenedItem>, a: nat, e: nat, i: nat)
    requires WellNested(flat) && RunTo(flat, a, e) && i < |flat| && i != a && flat[i].depth > 0
    ensures a <= i < e <==> a <= ParentPos(flat, i) < e
  {
    var c := ParentPos(flat, i);
    var x := flat[i].depth - 1;
    if a < i < e && x != flat[a].depth {
      Climb(flat, a, i, x);
    }
    if a <= c < e && e <= i {
      if e < i {
        Climb(flat, e, i, x);
      }
    }
  }

  /** The level of the item at `i` before the move, once the run of `a` hangs at level `c0`. */
  ghost function NewLevel(flat: seq<FlattenedItem>, a: nat, e: nat, c0: nat, i: nat): nat
    requires WellNested(flat) && RunTo(flat, a, e) && i < |flat|
  {
    ParentBefore(flat, i);
    if a <= i < e then flat[i].depth - flat[a].depth + c0 else flat[i].depth
  }

  // ---------------------------------------------------------------------------
  // The parents after the move
  // ---------------------------------------------------------------------------

  /** The drop: `a`'s run ends at `e`, the item moves to `o` under `pid`, whose item, when there is one, is `jp`, outside the run. */
  ghost predicate Setting(flat: seq<FlattenedItem>, sorted: seq<FlattenedItem>, a: nat, o: nat, e: nat, pid: Option<Id>, jp: nat)
  {
    && Before(flat, a, e) && Moved(flat, sorted, a, o, pid)
    && (pid.Some? ==> jp < |flat| && flat[jp].item.id == pid.value && !(a <= jp < e))
  }

  /** The children list item `k` of the moved list belongs to. */
  ghost function NewParent(flat: seq<FlattenedItem>, sorted: seq<FlattenedItem>, a: nat, o: nat, e: nat, pid: Option<Id>, jp: nat, k: nat): Ref
    requires Setting(flat, sorted, a, o, e, pid, jp) && k < |sorted|
  {
    var n := |flat|;
    if k == o then
      if pid.None? then RootRef else ItemRef(Target(n, a, o, jp))
    else
      var i := Origin(n, a, o, k);
      ParentBefore(flat, i);
      if flat[i].depth == 0 then RootRef else ItemRef(Target(n, a, o, ParentPos(flat, i)))
  }

  /** The level of item `k` of the moved list. */
  ghost function LevelAfter(flat: seq<FlattenedItem>, sorted: seq<FlattenedItem>, a: nat, o: nat, e: nat, pid: Option<Id>, jp: nat, k: nat): nat
    requires Setting(flat, sorted, a, o, e, pid, jp) && k < |sorted|
  {
    var c0 := if pid.None? then 0 else (ParentBefore(flat, jp); flat[jp].depth + 1);
    NewLevel(flat, a, e, c0, Origin(|flat|, a, o, k))
  }

  /** Moving keeps the ids distinct and never "root". */
  lemma SortedIds(flat: seq<FlattenedItem>, sorted: seq<FlattenedItem>, a: nat, o: nat, e: nat, pid: Option<Id>, jp: nat)
    requires Setting(flat, sorted, a, o, e, pid, jp)
    ensures DistinctIds(sorted)
    ensures forall k :: 0 <= k < |sorted| ==> sorted[k].item.id != RootId
  {
    var n := |flat|;
    forall i, j | 0 <= i < j < n ensures sorted[i].item.id != sorted[j].item.id {
      MovedAt(flat, sorted, a, o, pid, i);
      MovedAt(flat, sorted, a, o, pid, j);
      TargetOrigin(n, a, o, i);
      TargetOrigin(n, a, o, j);
    }
    forall k | 0 <= k < n ensures sorted[k].item.id != RootId {
      MovedAt(flat, sorted, a, o, pid, k);
    }
  }

  /** With distinct ids and none "root", an item without a parent id goes to the top level. */
  lemma ResolveTop(s: seq<FlattenedItem>, k: nat)
    requires k < |s| && s[k].parentId.None?
    requires forall j :: 0 <= j < |s| ==> s[j].item.id != RootId
    ensures ParentOf(s, k) == Some(RootRef)
  {
    assert LastWithId(s, RootId, k).None?;
  }

  /** With distinct ids and none "root", an item goes under the one item carrying its parent id. */
  lemma ResolveItem(s: seq<FlattenedItem>, k: nat, q: nat)
    requires k < |s| && q < |s| && DistinctIds(s)
    requires forall j :: 0 <= j < |s| ==> s[j].item.id != RootId
    requires s[k].parentId == Some(s[q].item.id)
    ensures ParentOf(s, k) == Some(ItemRef(q))
  {
  }

  /** buildTree resolves every item of the moved list to `NewParent`. */
  lemma ParentAfterMove(flat: seq<FlattenedItem>, sorted: seq<FlattenedItem>, a: nat, o: nat, e: nat, pid: Option<Id>, jp: nat, k: nat)
    requires Setting(flat, sorted, a, o, e, pid, jp) && k < |sorted|
    ensures ParentOf(sorted, k) == Some(NewParent(flat, sorted, a, o, e, pid, jp, k))
  {
    var n := |flat|;
    SortedIds(flat, sorted, a, o, e, pid, jp);
    if k == o {
      if pid.Some? {
        MovedAt(flat, sorted, a, o, pid, Target(n, a, o, jp));
        ResolveItem(sorted, k, Target(n, a, o, jp));
      } else {
        ResolveTop(sorted, k);
      }
    } else {
      var i := Origin(n, a, o, k);
      MovedAt(flat, sorted, a, o, pid, k);
      ParentBefore(flat, i);
      if flat[i].depth == 0 {
        ResolveTop(sorted, k);
      } else {
        var q := Target(n, a, o, ParentPos(flat, i));
        MovedAt(flat, sorted, a, o, pid, q);
        ResolveItem(sorted, k, q);
      }
    }
  }

  /** The new levels agree with the new parents: 0 at the top, one more than the parent's below. */
  lemma LevelStepAfter(flat: seq<FlattenedItem>, sorted: seq<FlattenedItem>, a: nat, o: nat, e: nat, pid: Option<Id>, jp: nat, k: nat)
    requires Setting(flat, sorted, a, o, e, pid, jp) && k < |sorted|
    ensures var r := NewParent(flat, sorted, a, o, e, pid, jp, k);
      && (r.RootRef? ==> LevelAfter(flat, sorted, a, o, e, pid, jp, k) == 0)
      && (r.ItemRef? ==>
            r.i < |sorted| && LevelAfter(flat, sorted, a, o, e, pid, jp, k) == LevelAfter(flat, sorted, a, o, e, pid, jp, r.i) + 1)
  {
    var n := |flat|;
    var i := Origin(n, a, o, k);
    ParentBefore(flat, i);
    ParentBefore(flat, a);
    if k != o && flat[i].depth > 0 {
      InRunIffParent(flat, a, e, i);
    }
  }

  /** Item `k` of the moved list goes under the moved item exactly when it came from the run one level below `a`. */
  lemma UnderMoved(flat: seq<FlattenedItem>, sorted: seq<FlattenedItem>, a: nat, o: nat, e: nat, pid: Option<Id>, jp: nat, k: nat)
    requires Setting(flat, sorted, a, o, e, pid, jp) && k < |sorted|
    ensures NewParent(flat, sorted, a, o, e, pid, jp, k) == ItemRef(o)
      <==> k != o && var i := Origin(|flat|, a, o, k); a < i < e && flat[i].depth == flat[a].depth + 1
  {
    var n := |flat|;
    var i := Origin(n, a, o, k);
    ParentBefore(flat, i);
    if k != o {
      RunChild(flat, a, e, i);
      if flat[i].depth > 0 {
        TargetOrigin(n, a, o, k);
        assert Origin(n, a, o, Target(n, a, o, ParentPos(flat, i))) == ParentPos(flat, i);
      }
    }
  }

  // ---------------------------------------------------------------------------
  // The moved item's children, in order
  // ---------------------------------------------------------------------------

  /** The ids of the items below `hi` whose flag is set, in order. */
  function Select(s: seq<FlattenedItem>, f: seq<bool>, hi: nat): seq<Id>
    requires hi <= |s| && hi <= |f|
    decreases hi
  {
    if hi == 0 then [] else Select(s, f, hi - 1) + (if f[hi - 1] then [s[hi - 1].item.id] else [])
  }

  lemma {:induction false} IdsAtAppend(s: seq<FlattenedItem>, u: seq<nat>, v: seq<nat>)
    requires forall m :: 0 <= m < |u| ==> u[m] < |s|
    requires forall m :: 0 <= m < |v| ==> v[m] < |s|
    ensures IdsAt(s, u + v) == IdsAt(s, u) + IdsAt(s, v)
    decreases |u|
  {
    if u == [] {
      assert u + v == v;
    } else {
      assert (u + v)[1..] == u[1..] + v;
      IdsAtAppend(s, u[1..], v);
    }
  }

  /** The ids at the marked positions are the selected ids. */
  lemma {:induction false} SelectMarked(s: seq<FlattenedItem>, f: seq<bool>, hi: nat)
    requires |f| == |s| && hi <= |s|
    requires forall k :: 0 <= k < |Marked(f, 0, hi)| ==> Marked(f, 0, hi)[k] < |s|
    ensures IdsAt(s, Marked(f, 0, hi)) == Select(s, f, hi)
    decreases hi
  {
    if hi > 0 {
      var m := Marked(f, 0, hi - 1);
      var tail: seq<nat> := if f[hi - 1] then [hi - 1] else [];
      assert Marked(f, 0, hi) == m + tail;
      assert forall k :: 0 <= k < |m| ==> m[k] == (m + tail)[k];
      SelectMarked(s, f, hi - 1);
      IdsAtAppend(s, m, tail);
      assert IdsAt(s, tail) == (if f[hi - 1] then [s[hi - 1].item.id] else []);
    }
  }

  /** Selection below `hi` sees only the items and flags below `hi`. */
  lemma {:induction false} SelectPrefix(s: seq<FlattenedItem>, f: seq<bool>, s2: seq<FlattenedItem>, f2: seq<bool>, hi: nat)
    requires hi <= |s| && hi <= |f| && hi <= |s2| && hi <= |f2|
    requires forall k :: 0 <= k < hi ==> s[k] == s2[k] && f[k] == f2[k]
    ensures Select(s, f, hi) == Select(s2, f2, hi)
    decreases hi
  {
    if hi > 0 {
      SelectPrefix(s, f, s2, f2, hi - 1);
    }
  }

  /** Taking out an unflagged item leaves the selection as it was. */
  lemma {:induction false} SelectRemove(s: seq<FlattenedItem>, f: seq<bool>, i: nat, hi: nat)
    requires |f| == |s| && i < hi <= |s| && !f[i]
    ensures Select(s, f, hi) == Select(RemoveAt(s, i), RemoveAt(f, i), hi - 1)
    decreases hi
  {
    if hi == i + 1 {
      SelectPrefix(s, f, RemoveAt(s, i), RemoveAt(f, i), i);
    } else {
      SelectRemove(s, f, i, hi - 1);
      assert RemoveAt(s, i)[hi - 2] == s[hi - 1];
    }
  }

  /** Every position `Marked` lists lies below `hi`. */
  lemma {:induction false} MarkedBelow(f: seq<bool>, hi: nat)
    requires hi <= |f|
    ensures forall k :: 0 <= k < |Marked(f, 0, hi)| ==> Marked(f, 0, hi)[k] < hi
    decreases hi
  {
    if hi > 0 {
      MarkedBelow(f, hi - 1);
      var m := Marked(f, 0, hi - 1);
      assert Marked(f, 0, hi) == m + (if f[hi - 1] then [hi - 1] else []);
    }
  }

  /** Lists that agree once one unflagged item is taken out of each select the same ids. */
  lemma SelectAcrossMove(s: seq<FlattenedItem>, f: seq<bool>, o: nat, s2: seq<FlattenedItem>, g: seq<bool>, a: nat)
    requires |f| == |s| == |s2| == |g| && o < |s| && a < |s| && !f[o] && !g[a]
    requires RemoveAt(f, o) == RemoveAt(g, a) && RemoveAt(s, o) == RemoveAt(s2, a)
    ensures Select(s, f, |s|) == Select(s2, g, |s|)
  {
    var n := |s|;
    var rs, rf := RemoveAt(s, o), RemoveAt(f, o);
    SelectRemove(s, f, o, n);
    assert Select(s, f, n) == Select(rs, rf, n - 1);
    SelectRemove(s2, g, a, n);
    assert Select(s2, g, n) == Select(rs, rf, n - 1);
  }

  /** Lists that agree once one unflagged item is taken out of each mark the same ids. */
  lemma MarkedAcrossMove(s: seq<FlattenedItem>, f: seq<bool>, o: nat, s2: seq<FlattenedItem>, g: seq<bool>, a: nat)
    requires |f| == |s| == |s2| == |g| && o < |s| && a < |s| && !f[o] && !g[a]
    requires RemoveAt(f, o) == RemoveAt(g, a) && RemoveAt(s, o) == RemoveAt(s2, a)
    ensures forall k :: 0 <= k < |Marked(f, 0, |s|)| ==> Marked(f, 0, |s|)[k] < |s|
    ensures forall k :: 0 <= k < |Marked(g, 0, |s|)| ==> Marked(g, 0, |s|)[k] < |s|
    ensures IdsAt(s, Marked(f, 0, |s|)) == IdsAt(s2, Marked(g, 0, |s|))
  {
    MarkedBelow(f, |s|);
    MarkedBelow(g, |s|);
    SelectMarked(s, f, |s|);
    SelectMarked(s2, g, |s|);
    SelectAcrossMove(s, f, o, s2, g, a);
  }

  /** The new links and levels of the moved list. */
  ghost function LinksAfter(flat: seq<FlattenedItem>, sorted: seq<FlattenedItem>, a: nat, o: nat, e: nat, pid: Option<Id>, jp: nat): seq<Ref>
    requires Setting(flat, sorted, a, o, e, pid, jp)
  {
    seq(|sorted|, k requires 0 <= k < |sorted| => NewParent(flat, sorted, a, o, e, pid, jp, k))
  }

  ghost function LevelsAfter(flat: seq<FlattenedItem>, sorted: seq<FlattenedItem>, a: nat, o: nat, e: nat, pid: Option<Id>, jp: nat): seq<nat>
    requires Setting(flat, sorted, a, o, e, pid, jp)
  {
    seq(|sorted|, k requires 0 <= k < |sorted| => LevelAfter(flat, sorted, a, o, e, pid, jp, k))
  }

  /** The moved list's links are buildTree's resolved parents, with consistent levels. */
  lemma MovedLinks(flat: seq<FlattenedItem>, sorted: seq<FlattenedItem>, a: nat, o: nat, e: nat, pid: Option<Id>, jp: nat)
    requires Setting(flat, sorted, a, o, e, pid, jp)
    ensures var P := LinksAfter(flat, sorted, a, o, e, pid, jp);
      && |P| == |sorted| && Levels(P, LevelsAfter(flat, sorted, a, o, e, pid, jp))
      && forall k :: 0 <= k < |sorted| ==> ParentOf(sorted, k) == Some(P[k])
  {
    var P := LinksAfter(flat, sorted, a, o, e, pid, jp);
    var D := LevelsAfter(flat, sorted, a, o, e, pid, jp);
    forall k | 0 <= k < |P|
      ensures P[k].RootRef? ==> D[k] == 0
      ensures P[k].ItemRef? ==> P[k].i < |P| && D[k] == D[P[k].i] + 1
    {
      LevelStepAfter(flat, sorted, a, o, e, pid, jp, k);
    }
    forall k | 0 <= k < |sorted| ensures ParentOf(sorted, k) == Some(P[k]) {
      ParentAfterMove(flat, sorted, a, o, e, pid, jp, k);
    }
  }

  /** Apart from the moved item itself, the items linked to it after the move are its old children. */
  lemma FlagsAfterMove(flat: seq<FlattenedItem>, sorted: seq<FlattenedItem>, a: nat, o: nat, e: nat, pid: Option<Id>, jp: nat, f: seq<bool>, g: seq<bool>)
    requires Setting(flat, sorted, a, o, e, pid, jp)
    requires f == KidFlags(LinksAfter(flat, sorted, a, o, e, pid, jp), ItemRef(o))
    requires |g| == |flat| && forall i :: 0 <= i < |flat| ==> (g[i] <==> a < i < e && flat[i].depth == flat[a].depth + 1)
    ensures |f| == |g| && !f[o] && !g[a] && RemoveAt(f, o) == RemoveAt(g, a)
  {
    var n := |flat|;
    UnderMoved(flat, sorted, a, o, e, pid, jp, o);
    forall r | 0 <= r < n - 1 ensures RemoveAt(f, o)[r] == RemoveAt(g, a)[r] {
      var k := if r < o then r else r + 1;
      UnderMoved(flat, sorted, a, o, e, pid, jp, k);
      RemovedAt(g, a, o, r);
    }
  }

  /** The items the moved list links to the moved item are those of its old run one level down, in the same order. */
  lemma MovedKids(flat: seq<FlattenedItem>, sorted: seq<FlattenedItem>, a: nat, o: nat, e: nat, pid: Option<Id>, jp: nat)
    requires Setting(flat, sorted, a, o, e, pid, jp)
    ensures IdsAt(sorted, Kids(LinksAfter(flat, sorted, a, o, e, pid, jp), ItemRef(o)))
         == IdsAt(flat, DepthIndices(flat, flat[a].depth + 1, a + 1, e))
  {
    var n := |flat|;
    var f := KidFlags(LinksAfter(flat, sorted, a, o, e, pid, jp), ItemRef(o));
    var g := seq(n, i requires 0 <= i < n => a < i < e && flat[i].depth == flat[a].depth + 1);
    RunChildren(flat, a, e, g);
    FlagsAfterMove(flat, sorted, a, o, e, pid, jp, f, g);
    MarkedAcrossMove(sorted, f, o, flat, g, a);
  }

  /**
   * buildTree on the moved list succeeds, lists every id once, and gives
   * the moved item as children the items one level below it in its old run.
   */
  lemma MovedRebuild(flat: seq<FlattenedItem>, sorted: seq<FlattenedItem>, a: nat, o: nat, e: nat, pid: Option<Id>, jp: nat, node: TreeItem, id: Id)
    requires Setting(flat, sorted, a, o, e, pid, jp)
    requires node == flat[a].item && id == node.id
    requires IdList(node.children) == IdsAt(flat, DepthIndices(flat, flat[a].depth + 1, a + 1, e))
    ensures BuildTreeSpec(sorted).Ok?
    ensures var t := BuildTreeSpec(sorted).value;
      && multiset(IdList(PreOrder(t))) == multiset(IdsOf(sorted))
      && UniqueIds(t)
      && FindItemDeep(t, id).Some?
      && IdList(FindItemDeep(t, id).value.children) == IdList(node.children)
  {
    var P := LinksAfter(flat, sorted, a, o, e, pid, jp);
    var D := LevelsAfter(flat, sorted, a, o, e, pid, jp);
    MovedLinks(flat, sorted, a, o, e, pid, jp);
    SortedIds(flat, sorted, a, o, e, pid, jp);
    RebuildForest(sorted, P, D);
    MovedKids(flat, sorted, a, o, e, pid, jp);
  }

  // ---------------------------------------------------------------------------
  // From the tree to its flattened list
  // ---------------------------------------------------------------------------

  /** Item `k` is followed by its own subtree's block, and heads the run it spans. */
  ghost predicate HeadsBlock(s: seq<FlattenedItem>, k: nat)
  {
    && k < |s|
    && var b := Flatten(s[k].item.children, Some(s[k].item.id), s[k].depth + 1, 0);
       Occurs(s, b, k + 1) && RunTo(s, k, k + 1 + |b|)
  }

  /** In a flattened block every item is followed by its own subtree's block, and heads the run it spans. */
  lemma {:induction false} SubtreeFollows(s: seq<FlattenedItem>, ts: seq<TreeItem>, pid: Option<Id>, d: int, idx: int, o: nat, k: nat)
    requires Occurs(s, Flatten(ts, pid, d, idx), o)
    requires o <= k < o + |Flatten(ts, pid, d, idx)|
    requires o + |Flatten(ts, pid, d, idx)| < |s| ==> s[o + |Flatten(ts, pid, d, idx)|].depth <= d
    ensures HeadsBlock(s, k)
    decreases ts
  {
    assert ts != [];
    var kids := Flatten(ts[0].children, Some(ts[0].id), d + 1, 0);
    var e := o + 1 + |kids|;
    if k == o {
      SubtreeHead(s, ts, pid, d, idx, o);
    } else {
      BlockTail(s, ts, pid, d, idx, o);
      if k < e {
        SubtreeFollows(s, ts[0].children, Some(ts[0].id), d + 1, 0, o + 1, k);
      } else {
        SubtreeFollows(s, ts[1..], pid, d, idx + 1, e, k);
      }
    }
  }

  /** The first item of a flattened block is followed by its subtree's block, which it heads. */
  lemma SubtreeHead(s: seq<FlattenedItem>, ts: seq<TreeItem>, pid: Option<Id>, d: int, idx: int, o: nat)
    requires ts != [] && Occurs(s, Flatten(ts, pid, d, idx), o)
    requires o + |Flatten(ts, pid, d, idx)| < |s| ==> s[o + |Flatten(ts, pid, d, idx)|].depth <= d
    ensures HeadsBlock(s, o)
  {
    BlockParts(s, ts, pid, d, idx, o);
    BlockRun(s, ts, pid, d, idx, o, |Flatten(ts, pid, d, idx)|);
    HeadsFrom(s, o, ts[0], d, Flatten(ts[0].children, Some(ts[0].id), d + 1, 0));
  }

  /** Item `o` heads its block when it carries node `t` at depth `d` and `t`'s subtree block follows over its run. */
  lemma HeadsFrom(s: seq<FlattenedItem>, o: nat, t: TreeItem, d: int, b: seq<FlattenedItem>)
    requires o < |s| && s[o].item == t && s[o].depth == d
    requires b == Flatten(t.children, Some(t.id), d + 1, 0)
    requires Occurs(s, b, o + 1) && RunTo(s, o, o + 1 + |b|)
    ensures HeadsBlock(s, o)
  {
  }

  /** After its first item, a flattened block holds the first root's subtree block, then the later roots' block. */
  lemma BlockTail(s: seq<FlattenedItem>, ts: seq<TreeItem>, pid: Option<Id>, d: int, idx: int, o: nat)
    requires ts != [] && Occurs(s, Flatten(ts, pid, d, idx), o)
    requires o + |Flatten(ts, pid, d, idx)| < |s| ==> s[o + |Flatten(ts, pid, d, idx)|].depth <= d
    ensures var kids := Flatten(ts[0].children, Some(ts[0].id), d + 1, 0);
      var rest := Flatten(ts[1..], pid, d, idx + 1);
      var e := o + 1 + |kids|;
      && |Flatten(ts, pid, d, idx)| == 1 + |kids| + |rest|
      && Occurs(s, kids, o + 1) && (e < |s| ==> s[e].depth <= d + 1)
      && Occurs(s, rest, e)
  {
    BlockParts(s, ts, pid, d, idx, o);
    BlockRun(s, ts, pid, d, idx, o, |Flatten(ts, pid, d, idx)|);
  }

  /** Every item of a flattened block comes from the block's forest. */
  lemma InBlock(s: seq<FlattenedItem>, ts: seq<TreeItem>, pid: Option<Id>, d: int, idx: int, o: nat)
    requires Occurs(s, Flatten(ts, pid, d, idx), o)
    ensures forall i :: o <= i < o + |Flatten(ts, pid, d, idx)| ==> s[i].item.id in NodeIds(ts)
  {
    var b := Flatten(ts, pid, d, idx);
    var p := PreOrder(ts);
    FlattenListsPreOrder(ts, pid, d, idx);
    forall i | o <= i < o + |b| ensures s[i].item.id in NodeIds(ts) {
      assert s[i] == b[i - o];
      assert p[i - o] in p;
    }
  }

  /** One step of `TopLevelIds`: the first root heads the top level, the rest follow. */
  lemma TopStep(s: seq<FlattenedItem>, ts: seq<TreeItem>, o: nat, later: seq<nat>, top: seq<nat>)
    requires ts != [] && o < |s| && s[o].item == ts[0] && top == [o] + later
    requires forall m :: 0 <= m < |later| ==> later[m] < |s|
    requires IdList(ts[1..]) == IdsAt(s, later)
    ensures forall m :: 0 <= m < |top| ==> top[m] < |s|
    ensures IdList(ts) == IdsAt(s, top)
  {
    assert top[1..] == later;
  }

  /** The top level of a flattened block lists the forest's roots. */
  lemma {:induction false} TopLevelIds(s: seq<FlattenedItem>, ts: seq<TreeItem>, pid: Option<Id>, d: int, idx: int, o: nat, n: nat)
    requires n == |Flatten(ts, pid, d, idx)| && Occurs(s, Flatten(ts, pid, d, idx), o)
    requires o + n < |s| ==> s[o + n].depth <= d
    ensures IdList(ts) == IdsAt(s, DepthIndices(s, d, o, o + n))
    decreases ts
  {
    if ts != [] {
      var rest := Flatten(ts[1..], pid, d, idx + 1);
      var e := o + 1 + |Flatten(ts[0].children, Some(ts[0].id), d + 1, 0)|;
      TopSplit(s, ts, pid, d, idx, o, n);
      TopLevelIds(s, ts[1..], pid, d, idx + 1, e, |rest|);
      TopStep(s, ts, o, DepthIndices(s, d, e, o + n), DepthIndices(s, d, o, o + n));
    } else {
      assert DepthIndices(s, d, o, o + n) == [];
    }
  }

  /** A non-empty flattened block: its first root at `o` at the top level, then the later roots' block. */
  lemma TopSplit(s: seq<FlattenedItem>, ts: seq<TreeItem>, pid: Option<Id>, d: int, idx: int, o: nat, n: nat)
    requires ts != [] && n == |Flatten(ts, pid, d, idx)| && Occurs(s, Flatten(ts, pid, d, idx), o)
    requires o + n < |s| ==> s[o + n].depth <= d
    ensures var e := o + 1 + |Flatten(ts[0].children, Some(ts[0].id), d + 1, 0)|;
      var rest := Flatten(ts[1..], pid, d, idx + 1);
      && o < |s| && s[o].item == ts[0]
      && e + |rest| == o + n && Occurs(s, rest, e)
      && DepthIndices(s, d, o, o + n) == [o] + DepthIndices(s, d, e, o + n)
  {
    BlockParts(s, ts, pid, d, idx, o);
    BlockRun(s, ts, pid, d, idx, o, n);
  }

  /** The flattened tree is well nested and lists the pre-order ids, distinct and none "root". */
  lemma FlatOfTree(items: seq<TreeItem>)
    requires UniqueIds(items) && RootId !in NodeIds(items)
    ensures var flat := FlattenTree(items);
      && WellNested(flat) && DistinctIds(flat)
      && (forall j :: 0 <= j < |flat| ==> flat[j].item.id != RootId)
      && IdsOf(flat) == IdList(PreOrder(items))
  {
    FlattenedParents(items);
    FlattenListsPreOrder(items, None, 0, 0);
  }

  /** An id of the tree is found in the flattened list at the node findItemDeep returns. */
  lemma FlatIndex(items: seq<TreeItem>, id: Id) returns (i: nat)
    requires id in NodeIds(items)
    ensures FindIndex(FlattenTree(items), id) == Some(i) && i < |FlattenTree(items)|
    ensures FindItemDeep(items, id).Some? && FlattenTree(items)[i].item == FindItemDeep(items, id).value
  {
    FlattenListsPreOrder(items, None, 0, 0);
    FindIndexIsFirstWithId(FlattenTree(items), PreOrder(items), id);
    FindItemDeepFound(items, id);
    FindItemDeepIsFirst(items, id);
    i := FindIndex(FlattenTree(items), id).value;
  }

  /** The flattened subtree of the item at `a` spans its run, whose ids are its descendants' and whose top level lists its children. */
  lemma SubtreeRun(s: seq<FlattenedItem>, ts: seq<TreeItem>, a: nat, node: TreeItem) returns (e: nat)
    requires Occurs(s, Flatten(ts, None, 0, 0), 0) && |s| == |Flatten(ts, None, 0, 0)| && a < |s|
    requires node == s[a].item
    ensures RunTo(s, a, e)
    ensures forall i :: a < i < e ==> s[i].item.id in NodeIds(node.children)
    ensures IdList(node.children) == IdsAt(s, DepthIndices(s, s[a].depth + 1, a + 1, e))
  {
    SubtreeFollows(s, ts, None, 0, 0, 0, a);
    e := HeadRun(s, a, node);
  }

  /** The run an item heads is its subtree's block: its descendants, with its children at the top level. */
  lemma HeadRun(s: seq<FlattenedItem>, a: nat, node: TreeItem) returns (e: nat)
    requires HeadsBlock(s, a) && node == s[a].item
    ensures RunTo(s, a, e)
    ensures forall i :: a < i < e ==> s[i].item.id in NodeIds(node.children)
    ensures IdList(node.children) == IdsAt(s, DepthIndices(s, s[a].depth + 1, a + 1, e))
  {
    var d := s[a].depth;
    var b := Flatten(node.children, Some(node.id), d + 1, 0);
    e := a + 1 + |b|;
    InBlock(s, node.children, Some(node.id), d + 1, 0, a + 1);
    TopLevelIds(s, node.children, Some(node.id), d + 1, 0, a + 1, |b|);
  }

  /** An item that is not in the subtree of the item at `a` lies outside its run. */
  lemma OutsideRun(flat: seq<FlattenedItem>, a: nat, e: nat, jp: nat, node: TreeItem)
    requires a < e <= |flat| && jp < |flat| && node.id == flat[a].item.id
    requires forall i :: a < i < e ==> flat[i].item.id in NodeIds(node.children)
    requires flat[jp].item.id !in NodeIds([node])
    ensures !(a <= jp < e)
  {
    NodeIdsUnfold([node]);
    assert [node][1..] == [];
  }

  /** The dragged item `node` sits at `a` of the flattened forest and heads the run ending at `e`, whose top level lists its children. */
  ghost predicate ActivePlaced(flat: seq<FlattenedItem>, activeId: Id, a: nat, e: nat, node: TreeItem)
  {
    && Before(flat, a, e)
    && FindIndex(flat, activeId) == Some(a)
    && node == flat[a].item
    && IdList(node.children) == IdsAt(flat, DepthIndices(flat, flat[a].depth + 1, a + 1, e))
  }

  /** The dragged item's place and run in the flattened tree. */
  lemma ActiveRun(items: seq<TreeItem>, activeId: Id) returns (a: nat, e: nat)
    requires UniqueIds(items) && RootId !in NodeIds(items)
    requires FindItemDeep(items, activeId).Some?
    ensures ActivePlaced(FlattenTree(items), activeId, a, e, FindItemDeep(items, activeId).value)
    ensures forall i :: a < i < e ==> FlattenTree(items)[i].item.id in NodeIds(FindItemDeep(items, activeId).value.children)
    ensures IdsOf(FlattenTree(items)) == IdList(PreOrder(items))
  {
    FlatOfTree(items);
    FindItemDeepFound(items, activeId);
    a := FlatIndex(items, activeId);
    var flat := FlattenTree(items);
    assert Occurs(flat, Flatten(items, None, 0, 0), 0);
    e := SubtreeRun(flat, items, a, FindItemDeep(items, activeId).value);
    assert FindItemDeep(items, activeId).value == flat[a].item;
    assert ActivePlaced(flat, activeId, a, e, FindItemDeep(items, activeId).value);
  }

  /** Where the new parent sits in the flattened tree, when it lies outside the subtree of the item at `a`. */
  lemma NewParentAt(items: seq<TreeItem>, parentId: Option<Id>, a: nat, e: nat, node: TreeItem) returns (jp: nat)
    requires a < e <= |FlattenTree(items)| && node.id == FlattenTree(items)[a].item.id
    requires forall i :: a < i < e ==> FlattenTree(items)[i].item.id in NodeIds(node.children)
    requires parentId.Some? ==> parentId.value in NodeIds(items) && parentId.value !in NodeIds([node])
    ensures parentId.Some? ==>
      jp < |FlattenTree(items)| && FlattenTree(items)[jp].item.id == parentId.value && !(a <= jp < e)
  {
    jp := 0;
    if parentId.Some? {
      jp := FlatIndex(items, parentId.value);
      OutsideRun(FlattenTree(items), a, e, jp, node);
    }
  }

  /** As ActivePlaced; the hovered item sits at `o` and the new parent, when there is one, at `jp`, outside the run. */
  ghost predicate Placed(flat: seq<FlattenedItem>, activeId: Id, overId: Id, parentId: Option<Id>, a: nat, o: nat, e: nat, jp: nat, node: TreeItem)
  {
    && ActivePlaced(flat, activeId, a, e, node)
    && FindIndex(flat, overId) == Some(o)
    && (parentId.Some? ==> jp < |flat| && flat[jp].item.id == parentId.value && !(a <= jp < e))
  }

  /** Where the dragged item, its run, the hovered item and the new parent sit in the flattened tree. */
  lemma FlatPositions(items: seq<TreeItem>, activeId: Id, overId: Id, parentId: Option<Id>) returns (a: nat, o: nat, e: nat, jp: nat)
    requires UniqueIds(items) && RootId !in NodeIds(items)
    requires FindItemDeep(items, activeId).Some? && overId in NodeIds(items)
    requires parentId.Some? ==>
      parentId.value in NodeIds(items) && parentId.value !in NodeIds([FindItemDeep(items, activeId).value])
    ensures Placed(FlattenTree(items), activeId, overId, parentId, a, o, e, jp, FindItemDeep(items, activeId).value)
    ensures IdsOf(FlattenTree(items)) == IdList(PreOrder(items))
  {
    a, e := ActiveRun(items, activeId);
    o := FlatIndex(items, overId);
    jp := NewParentAt(items, parentId, a, e, FindItemDeep(items, activeId).value);
  }

  // ---------------------------------------------------------------------------
  // The drop
  // ---------------------------------------------------------------------------

  /** The drop on a flattened forest in which the dragged item `node` sits at `a` and heads the run ending at `e`. */
  lemma FlatDrop(flat: seq<FlattenedItem>, activeId: Id, overId: Id, depth: int, parentId: Option<Id>, a: nat, o: nat, e: nat, jp: nat, node: TreeItem)
    requires Placed(flat, activeId, overId, parentId, a, o, e, jp, node)
    ensures DropList(flat, activeId, overId, depth, parentId).Some?
    ensures BuildTreeSpec(DropList(flat, activeId, overId, depth, parentId).value).Ok?
    ensures var t := BuildTreeSpec(DropList(flat, activeId, overId, depth, parentId).value).value;
      && multiset(IdList(PreOrder(t))) == multiset(IdsOf(flat))
      && UniqueIds(t)
      && FindItemDeep(t, activeId).Some?
      && IdList(FindItemDeep(t, activeId).value.children) == IdList(node.children)
  {
    DropListMovesOnlyActive(flat, activeId, overId, depth, parentId);
    var sorted := DropList(flat, activeId, overId, depth, parentId).value;
    MovedRebuild(flat, sorted, a, o, e, parentId, jp, node, activeId);
  }

  /** buildTree on the list a drop produces succeeds and keeps the tree's ids and the dragged item's children. */
  lemma DroppedList(items: seq<TreeItem>, activeId: Id, overId: Id, depth: int, parentId: Option<Id>)
    requires UniqueIds(items) && RootId !in NodeIds(items)
    requires FindItemDeep(items, activeId).Some? && overId in NodeIds(items)
    requires parentId.Some? ==>
      parentId.value in NodeIds(items) && parentId.value !in NodeIds([FindItemDeep(items, activeId).value])
    ensures DropList(FlattenTree(items), activeId, overId, depth, parentId).Some?
    ensures BuildTreeSpec(DropList(FlattenTree(items), activeId, overId, depth, parentId).value).Ok?
    ensures var t := BuildTreeSpec(DropList(FlattenTree(items), activeId, overId, depth, parentId).value).value;
      && multiset(IdList(PreOrder(t))) == multiset(IdList(PreOrder(items)))
      && UniqueIds(t)
      && FindItemDeep(t, activeId).Some?
      && IdList(FindItemDeep(t, activeId).value.children) == IdList(FindItemDeep(items, activeId).value.children)
  {
    var a, o, e, jp := FlatPositions(items, activeId, overId, parentId);
    FlatDrop(FlattenTree(items), activeId, overId, depth, parentId, a, o, e, jp, FindItemDeep(items, activeId).value);
  }

  /**
   * A drop onto a tree with unique ids, none of them "root", where the new
   * parent is outside the dragged subtree: it is committed, the new tree
   * holds every id exactly as often as the old one and none twice, and the
   * dragged item keeps its children in their order.
   */
  lemma DropKeepsTree(items: seq<TreeItem>, activeId: Id, overId: Id, depth: int, parentId: Option<Id>)
    requires UniqueIds(items) && RootId !in NodeIds(items)
    requires FindItemDeep(items, activeId).Some? && overId in NodeIds(items)
    requires parentId.Some? ==>
      parentId.value in NodeIds(items) && parentId.value !in NodeIds([FindItemDeep(items, activeId).value])
    ensures Drop(items, activeId, overId, depth, parentId).Some?
    ensures var t := Drop(items, activeId, overId, depth, parentId).value.newItems;
      && multiset(IdList(PreOrder(t))) == multiset(IdList(PreOrder(items)))
      && UniqueIds(t)
      && FindItemDeep(t, activeId).Some?
      && IdList(FindItemDeep(t, activeId).value.children) == IdList(FindItemDeep(items, activeId).value.children)
  {
    DroppedList(items, activeId, overId, depth, parentId);
    var sorted := DropList(FlattenTree(items), activeId, overId, depth, parentId).value;
    var t := BuildTreeSpec(sorted).value;
    assert Drop(items, activeId, overId, depth, parentId) == Some(Dropped(t, FindItemActualIndex(t, activeId, parentId)));
  }
}
