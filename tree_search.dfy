/**
 * Pre-order search and counting over a forest, from
 * src/SortableTree/utilities.ts: `findItemDeep`, `countChildren` and
 * `getChildCount`.
 */
module TreeSearch {
  import opened Types
  import opened TreeCodec

  /** Index of the first node of `p` whose id is `id`, if any. */
  function FirstWithId(p: seq<TreeItem>, id: Id): (r: Option<nat>)
    ensures r.None? <==> forall k :: 0 <= k < |p| ==> p[k].id != id
    ensures r.Some? ==> r.value < |p| && p[r.value].id == id
    ensures r.Some? ==> forall k :: 0 <= k < r.value ==> p[k].id != id
  {
    if p == [] then None
    else if p[0].id == id then Some(0)
    else match FirstWithId(p[1..], id)
      case None => None
      case Some(k) => Some(k + 1)
  }

  /** `findItemDeep`: a node is checked before its children, its children before its later siblings. */
  function FindItemDeep(ts: seq<TreeItem>, id: Id): Option<TreeItem>
    decreases ts
  {
    if ts == [] then None
    else if ts[0].id == id then Some(ts[0])
    else
      var inChildren := if |ts[0].children| > 0 then FindItemDeep(ts[0].children, id) else None;
      if inChildren.Some? then inChildren else FindItemDeep(ts[1..], id)
  }

  /** Pre-order of a concatenation. */
  lemma {:induction false} PreOrderAppend(a: seq<TreeItem>, b: seq<TreeItem>)
    ensures PreOrder(a + b) == PreOrder(a) + PreOrder(b)
    decreases |a|
  {
    if a == [] {
      assert a + b == b;
    } else {
      assert (a + b)[0] == a[0] && (a + b)[1..] == a[1..] + b;
      PreOrderAppend(a[1..], b);
    }
  }

  /** The first node with an id is the one at `m` when it has the id and none before it does. */
  lemma FirstWithIdAt(p: seq<TreeItem>, id: Id, m: nat)
    requires m < |p| && p[m].id == id && forall k :: 0 <= k < m ==> p[k].id != id
    ensures FirstWithId(p, id) == Some(m)
  {
  }

  /** The first match in `a + b` is the first in `a`, or else the first in `b`, shifted. */
  lemma FirstWithIdAppend(a: seq<TreeItem>, b: seq<TreeItem>, id: Id)
    ensures FirstWithId(a + b, id) == match FirstWithId(a, id)
      case Some(k) => Some(k)
      case None => match FirstWithId(b, id)
        case None => None
        case Some(k) => Some(|a| + k)
  {
    var c := a + b;
    match FirstWithId(a, id)
    case Some(k) =>
      assert forall j :: 0 <= j <= k ==> c[j] == a[j];
      FirstWithIdAt(c, id, k);
    case None =>
      assert forall j :: 0 <= j < |a| ==> c[j] == a[j];
      match FirstWithId(b, id)
      case Some(k) =>
        assert forall j :: |a| <= j <= |a| + k ==> c[j] == b[j - |a|];
        FirstWithIdAt(c, id, |a| + k);
      case None =>
        assert forall j :: |a| <= j < |c| ==> c[j] == b[j - |a|];
  }

  /** findItemDeep returns the first node of the pre-order listing with the id. */
  lemma {:induction false} FindItemDeepIsFirst(ts: seq<TreeItem>, id: Id)
    ensures FindItemDeep(ts, id) == match FirstWithId(PreOrder(ts), id)
      case None => None
      case Some(k) => Some(PreOrder(ts)[k])
    decreases ts
  {
    if ts != [] {
      var a := PreOrder(ts[0].children);
      var b := PreOrder(ts[1..]);
      assert PreOrder(ts) == [ts[0]] + (a + b);
      if ts[0].id != id {
        FindItemDeepIsFirst(ts[0].children, id);
        FindItemDeepIsFirst(ts[1..], id);
        FirstWithIdAppend(a, b, id);
        FirstWithIdAppend([ts[0]], a + b, id);
        if FirstWithId(a, id).Some? {
          assert (a + b)[FirstWithId(a, id).value] == a[FirstWithId(a, id).value];
        } else if FirstWithId(b, id).Some? {
          assert (a + b)[|a| + FirstWithId(b, id).value] == b[FirstWithId(b, id).value];
        }
      }
    }
  }

  /** findItemDeep finds a node exactly when the id occurs somewhere in the forest. */
  lemma FindItemDeepFound(ts: seq<TreeItem>, id: Id)
    ensures FindItemDeep(ts, id).None? <==> id !in NodeIds(ts)
    ensures FindItemDeep(ts, id).Some? ==>
      FindItemDeep(ts, id).value.id == id && FindItemDeep(ts, id).value in PreOrder(ts)
  {
    FindItemDeepIsFirst(ts, id);
    var p := PreOrder(ts);
    if id in NodeIds(ts) {
      var n :| n in p && n.id == id;
      var k :| 0 <= k < |p| && p[k] == n;
      assert p[k].id == id;
    }
  }

  /** `countChildren(items, count)`: `count` plus one for every node the reduction visits. */
  function CountChildren(ts: seq<TreeItem>, count: int): int
    decreases ts
  {
    if ts == [] then count
    else
      var acc := if |ts[0].children| > 0 then CountChildren(ts[0].children, count + 1) else count + 1;
      CountChildren(ts[1..], acc)
  }

  /** countChildren counts every node of the forest once. */
  lemma {:induction false} CountChildrenCountsNodes(ts: seq<TreeItem>, count: int)
    ensures CountChildren(ts, count) == count + |PreOrder(ts)|
    decreases ts
  {
    if ts != [] {
      CountChildrenCountsNodes(ts[0].children, count + 1);
      var acc := if |ts[0].children| > 0 then CountChildren(ts[0].children, count + 1) else count + 1;
      CountChildrenCountsNodes(ts[1..], acc);
    }
  }

  /** `getChildCount(items, id)`. */
  function GetChildCount(items: seq<TreeItem>, id: Id): int
  {
    match FindItemDeep(items, id)
      case None => 0
      case Some(item) => CountChildren(item.children, 0)
  }

  /**
   * getChildCount is the number of proper descendants of the first node
   * with the id, and 0 when no node has it.
   */
  lemma GetChildCountDescendants(items: seq<TreeItem>, id: Id)
    ensures id !in NodeIds(items) ==> GetChildCount(items, id) == 0
    ensures id in NodeIds(items) <==> FindItemDeep(items, id).Some?
    ensures FindItemDeep(items, id).Some? ==>
      var n := FindItemDeep(items, id).value;
      n.id == id && n in PreOrder(items) && GetChildCount(items, id) == |PreOrder(n.children)|
  {
    FindItemDeepFound(items, id);
    if id in NodeIds(items) {
      CountChildrenCountsNodes(FindItemDeep(items, id).value.children, 0);
    }
  }
}
