/**
 * The data model of the sortable tree: tree nodes, their flattened form,
 * the id-indexed structure and the result of a drop.
 */
module Types {

  datatype Option<+T> = None | Some(value: T)

  datatype Result<+T, +E> = Ok(value: T) | Err(error: E)

  /** A `UniqueIdentifier`. Only string identifiers are modelled. */
  type Id = string

  /** The id of the synthetic root node that buildTree creates. */
  const RootId: Id := "root"

  /** JavaScript truthiness of an optional identifier: null and "" are falsy. */
  predicate Truthy(id: Option<Id>)
  {
    id.Some? && id.value != ""
  }

  /** The open `[key: string]: any` fields of a node, kept opaque. */
  type Payload(==)

  /** The flattening fields that a node built by buildTree still carries. */
  datatype Place = Place(parentId: Option<Id>, depth: int, index: int)

  /**
   * A tree node. The optional boolean flags are read only by truthiness,
   * so an absent flag is `false`.
   */
  datatype TreeItem = TreeItem(
    id: Id,
    text: string,  // the `label` field (`label` is a Dafny keyword)
    children: seq<TreeItem>,
    collapsed: bool,
    canFetchChildren: bool,
    disableDragging: bool,
    extra: Payload,
    place: Option<Place>)

  /**
   * A node of the flattened tree: the node itself (with its whole subtree
   * still in `children`) plus the fields that flattening adds. These three
   * fields override whatever `item.place` holds.
   */
  datatype FlattenedItem = FlattenedItem(item: TreeItem, parentId: Option<Id>, depth: int, index: int)
  {
    function Id(): Id { item.id }
  }

  /** A forest paired with an id-to-node lookup table. */
  datatype OptimizedTreeStructure = OptimizedTreeStructure(items: seq<TreeItem>, itemMap: map<Id, TreeItem>)

  /** What a completed drop reports: the moved node, its parent's id and its sibling index. */
  datatype DropResult = DropResult(movedItem: TreeItem, parent: Option<Id>, index: int)

  /** The ids of a flat list, in order. */
  function IdsOf(s: seq<FlattenedItem>): (r: seq<Id>)
    ensures |r| == |s|
    ensures forall i :: 0 <= i < |s| ==> r[i] == s[i].item.id
  {
    if s == [] then [] else [s[0].item.id] + IdsOf(s[1..])
  }

  /** Index of the first element of `s` whose id is `id` (`findIndex`), if any. */
  function FindIndex(s: seq<FlattenedItem>, id: Id): (r: Option<nat>)
    ensures r.None? <==> forall i :: 0 <= i < |s| ==> s[i].item.id != id
    ensures r.Some? ==> r.value < |s| && s[r.value].item.id == id
    ensures r.Some? ==> forall i :: 0 <= i < r.value ==> s[i].item.id != id
  {
    if s == [] then None
    else if s[0].item.id == id then Some(0)
    else match FindIndex(s[1..], id)
      case None => None
      case Some(i) => Some(i + 1)
  }

  /** `s` with element `i` taken out. */
  function RemoveAt<T>(s: seq<T>, i: nat): (r: seq<T>)
    requires i < |s|
    ensures |r| == |s| - 1
    ensures forall k :: 0 <= k < i ==> r[k] == s[k]
    ensures forall k :: i <= k < |r| ==> r[k] == s[k + 1]
  {
    s[..i] + s[i + 1..]
  }

  /** Taking element `i` out removes one occurrence of it. */
  lemma MultisetRemoveAt<T>(s: seq<T>, i: nat)
    requires i < |s|
    ensures multiset(s) == multiset(RemoveAt(s, i)) + multiset{s[i]}
  {
    assert s == s[..i] + [s[i]] + s[i + 1..];
  }

  /** `r` is `s` with some elements dropped, order kept. */
  predicate IsSubsequence<T(==)>(r: seq<T>, s: seq<T>)
  {
    if r == [] then true
    else if s == [] then false
    else if r[0] == s[0] then IsSubsequence(r[1..], s[1..])
    else IsSubsequence(r, s[1..])
  }

  /** Keeping an extra element in front keeps a subsequence a subsequence. */
  lemma {:induction false} SubsequenceSkip<T>(r: seq<T>, x: T, s: seq<T>)
    requires IsSubsequence(r, s)
    ensures IsSubsequence(r, [x] + s)
    decreases |s|
  {
    var xs := [x] + s;
    assert xs[1..] == s;
    if r != [] && r[0] == x {
      assert s != [];
      assert [s[0]] + s[1..] == s;
      if r[0] == s[0] {
        SubsequenceSkip(r[1..], s[0], s[1..]);
      } else {
        SubsequenceSkip(r, x, s[1..]);
        assert ([x] + s[1..])[1..] == s[1..];
        SubsequenceSkip(r[1..], s[0], s[1..]);
      }
    }
  }

  lemma {:induction false} SubsequenceRefl<T>(s: seq<T>)
    ensures IsSubsequence(s, s)
    decreases |s|
  {
    if s != [] {
      SubsequenceRefl(s[1..]);
    }
  }

  /** Subsequences of two parts make a subsequence of the whole. */
  lemma {:induction false} SubsequenceConcat<T>(a1: seq<T>, b1: seq<T>, a2: seq<T>, b2: seq<T>)
    requires IsSubsequence(a1, b1) && IsSubsequence(a2, b2)
    ensures IsSubsequence(a1 + a2, b1 + b2)
    decreases |b1|
  {
    if b1 == [] {
      assert a1 == [];
      assert a1 + a2 == a2 && b1 + b2 == b2;
    } else {
      assert (b1 + b2)[0] == b1[0] && (b1 + b2)[1..] == b1[1..] + b2;
      if a1 != [] && a1[0] == b1[0] {
        SubsequenceConcat(a1[1..], b1[1..], a2, b2);
        assert (a1 + a2)[0] == a1[0] && (a1 + a2)[1..] == a1[1..] + a2;
      } else {
        SubsequenceConcat(a1, b1[1..], a2, b2);
        SubsequenceSkip(a1 + a2, b1[0], b1[1..] + b2);
        assert [b1[0]] + (b1[1..] + b2) == b1 + b2;
      }
    }
  }
}
