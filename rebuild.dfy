/**
 * What buildTree (src/SortableTree/utilities.ts) makes of a list whose
 * parent links form a forest: items with distinct ids, none of them "root",
 * and a level for every item that is 0 at the top and one more than the
 * parent's below it. Then every item ends up in the rebuilt tree exactly
 * once, and each node's children are the items that name it as parent, in
 * list order.
 */
module Rebuild {
  import opened Types
  import opened TreeCodec
  import opened RoundTrip
  import opened TreeSearch
  import opened TreeStructure

  // ---------------------------------------------------------------------------
  // Parent links and levels
  // ---------------------------------------------------------------------------

  /** Levels that agree with the links `P`: 0 under the root, one more than the parent's otherwise. */
  ghost predicate Levels(P: seq<Ref>, D: seq<nat>)
  {
    && |D| == |P|
    && (forall k {:trigger P[k]} :: 0 <= k < |P| && P[k].RootRef? ==> D[k] == 0)
    && (forall k {:trigger P[k]} :: 0 <= k < |P| && P[k].ItemRef? ==> P[k].i < |P| && D[k] == D[P[k].i] + 1)
  }

  /** The ancestor of `x` at level `l`; `x` itself at its own level. */
  ghost function AncestorAt(P: seq<Ref>, D: seq<nat>, x: nat, l: nat): (r: nat)
    requires Levels(P, D) && x < |P| && l <= D[x]
    ensures r < |P| && D[r] == l
    decreases D[x]
  {
    if l == D[x] then x else AncestorAt(P, D, P[x].i, l)
  }

  /** The ancestor one level further down hangs under the one at level `l`. */
  lemma {:induction false} AncestorStep(P: seq<Ref>, D: seq<nat>, x: nat, l: nat)
    requires Levels(P, D) && x < |P| && l < D[x]
    ensures P[AncestorAt(P, D, x, l + 1)] == ItemRef(AncestorAt(P, D, x, l))
    decreases D[x]
  {
    if l + 1 < D[x] {
      AncestorStep(P, D, P[x].i, l);
    }
  }

  /** Distinct naturals below `n` number at most `n`. */
  lemma {:induction false} DistinctBelow(q: seq<nat>, n: nat)
    requires forall i :: 0 <= i < |q| ==> q[i] < n
    requires forall i, j :: 0 <= i < j < |q| ==> q[i] != q[j]
    ensures |q| <= n
    decreases n
  {
    if q != [] {
      var v := q[|q| - 1];
      var q0 := q[..|q| - 1];
      var r := seq(|q0|, i requires 0 <= i < |q0| => if q0[i] == n - 1 then v else q0[i]);
      forall i | 0 <= i < |r| ensures r[i] < n - 1 {
        assert q0[i] == q[i] && q0[i] != v;
      }
      forall i, j | 0 <= i < j < |r| ensures r[i] != r[j] {
        assert q0[i] == q[i] && q0[j] == q[j];
      }
      DistinctBelow(r, n - 1);
    }
  }

  /** No level reaches the number of items: the ancestors of an item are distinct items. */
  lemma LevelBelow(P: seq<Ref>, D: seq<nat>, x: nat)
    requires Levels(P, D) && x < |P|
    ensures D[x] < |P|
  {
    var q := seq(D[x] + 1, l requires 0 <= l <= D[x] => AncestorAt(P, D, x, l));
    forall i, j | 0 <= i < j < |q| ensures q[i] != q[j] {
      assert D[q[i]] == i && D[q[j]] == j;
    }
    DistinctBelow(q, |P|);
  }

  // ---------------------------------------------------------------------------
  // Children lists
  // ---------------------------------------------------------------------------

  function KidFlags(P: seq<Ref>, r: Ref): seq<bool>
  {
    seq(|P|, k requires 0 <= k < |P| => P[k] == r)
  }

  /** The items linked to `r`, in list order. */
  function Kids(P: seq<Ref>, r: Ref): (ls: seq<nat>)
    ensures forall k :: 0 <= k < |ls| ==> ls[k] < |P|
  {
    MarkedMembers(KidFlags(P, r), 0, |P|);
    Marked(KidFlags(P, r), 0, |P|)
  }

  /** `ls` lists the items linked to `r`, each once. */
  ghost predicate ListsKids(P: seq<Ref>, ls: seq<nat>, r: Ref)
  {
    && (forall k :: 0 <= k < |ls| ==> ls[k] < |P| && P[ls[k]] == r)
    && (forall c :: 0 <= c < |P| && P[c] == r ==> c in ls)
    && (forall i, j :: 0 <= i < j < |ls| ==> ls[i] != ls[j])
  }

  /** The marked positions are the set flags, listed once each in increasing order. */
  lemma {:induction false} MarkedMembers(f: seq<bool>, lo: nat, hi: nat)
    requires hi <= |f|
    ensures forall k :: 0 <= k < |Marked(f, lo, hi)| ==> lo <= Marked(f, lo, hi)[k] < hi && f[Marked(f, lo, hi)[k]]
    ensures forall c :: lo <= c < hi && f[c] ==> c in Marked(f, lo, hi)
    ensures forall i, j :: 0 <= i < j < |Marked(f, lo, hi)| ==> Marked(f, lo, hi)[i] < Marked(f, lo, hi)[j]
    decreases hi
  {
    if hi > lo {
      MarkedMembers(f, lo, hi - 1);
      var m := Marked(f, lo, hi - 1);
      assert Marked(f, lo, hi) == m + (if f[hi - 1] then [hi - 1] else []);
    }
  }

  lemma KidsMembers(P: seq<Ref>, r: Ref)
    ensures ListsKids(P, Kids(P, r), r)
  {
    MarkedMembers(KidFlags(P, r), 0, |P|);
    var ls := Kids(P, r);
    forall i, j | 0 <= i < j < |ls| ensures ls[i] != ls[j] {
      assert ls[i] < ls[j];
    }
  }

  /** When `P` holds buildTree's resolved parents, its children lists are `Kids`. */
  lemma ChildIndicesKids(s: seq<FlattenedItem>, P: seq<Ref>, r: Ref)
    requires |P| == |s| && forall k :: 0 <= k < |s| ==> ParentOf(s, k) == Some(P[k])
    ensures ChildIndices(s, r, 0, |s|) == Kids(P, r)
  {
    ChildIndicesMarked(s, r, |s|);
    assert ChildFlags(s, r) == KidFlags(P, r);
  }

  /** Every item's list in `T` lists the items linked to it. */
  ghost predicate TableOf(P: seq<Ref>, T: seq<seq<nat>>)
  {
    |T| == |P| && forall j :: 0 <= j < |T| ==> ListsKids(P, T[j], ItemRef(j))
  }

  // ---------------------------------------------------------------------------
  // The nodes the assembly visits
  // ---------------------------------------------------------------------------

  /** The (item, fuel) pairs `AssembleList` builds nodes from, in pre-order. */
  function Walk(s: seq<FlattenedItem>, T: seq<seq<nat>>, ls: seq<nat>, fuel: nat): (w: seq<(nat, nat)>)
    requires TableFor(s, T)
    requires forall k :: 0 <= k < |ls| ==> ls[k] < |s|
    ensures forall m :: 0 <= m < |w| ==> w[m].0 < |s| && 0 < w[m].1 <= fuel
    decreases fuel, |ls|
  {
    if ls == [] || fuel == 0 then []
    else [(ls[0], fuel)] + Walk(s, T, T[ls[0]], fuel - 1) + Walk(s, T, ls[1..], fuel)
  }

  function Firsts(w: seq<(nat, nat)>): (r: seq<nat>)
    ensures |r| == |w| && forall m :: 0 <= m < |w| ==> r[m] == w[m].0
  {
    if w == [] then [] else [w[0].0] + Firsts(w[1..])
  }

  function Nodes(s: seq<FlattenedItem>, T: seq<seq<nat>>, w: seq<(nat, nat)>): (r: seq<TreeItem>)
    requires TableFor(s, T)
    requires forall m :: 0 <= m < |w| ==> w[m].0 < |s| && w[m].1 > 0
    ensures |r| == |w|
  {
    if w == [] then [] else [AssembleNode(s, T, w[0].0, w[0].1)] + Nodes(s, T, w[1..])
  }

  lemma {:induction false} NodeAt(s: seq<FlattenedItem>, T: seq<seq<nat>>, w: seq<(nat, nat)>, m: nat)
    requires TableFor(s, T)
    requires forall m :: 0 <= m < |w| ==> w[m].0 < |s| && w[m].1 > 0
    requires m < |w|
    ensures Nodes(s, T, w)[m] == AssembleNode(s, T, w[m].0, w[m].1)
    decreases m
  {
    if m > 0 {
      NodeAt(s, T, w[1..], m - 1);
    }
  }

  /** The ids of the items at positions `u`. */
  function IdsAt(s: seq<FlattenedItem>, u: seq<nat>): (r: seq<Id>)
    requires forall m :: 0 <= m < |u| ==> u[m] < |s|
    ensures |r| == |u| && forall m :: 0 <= m < |u| ==> r[m] == s[u[m]].item.id
  {
    if u == [] then [] else [s[u[0]].item.id] + IdsAt(s, u[1..])
  }

  /** The pre-order listing of the assembled forest is the walk's nodes. */
  lemma {:induction false} WalkPreOrder(s: seq<FlattenedItem>, T: seq<seq<nat>>, ls: seq<nat>, fuel: nat)
    requires TableFor(s, T) && forall k :: 0 <= k < |ls| ==> ls[k] < |s|
    ensures PreOrder(AssembleList(s, T, ls, fuel)) == Nodes(s, T, Walk(s, T, ls, fuel))
    decreases fuel, |ls|
  {
    if ls != [] && fuel != 0 {
      WalkPreOrder(s, T, T[ls[0]], fuel - 1);
      WalkPreOrder(s, T, ls[1..], fuel);
      AssembledStep(s, T, ls, fuel);
      WalkStep(s, T, ls, fuel);
      SameParts(PreOrder(AssembleList(s, T, ls, fuel)), Nodes(s, T, Walk(s, T, ls, fuel)), AssembleNode(s, T, ls[0], fuel),
        PreOrder(AssembleList(s, T, T[ls[0]], fuel - 1)), PreOrder(AssembleList(s, T, ls[1..], fuel)),
        Nodes(s, T, Walk(s, T, T[ls[0]], fuel - 1)), Nodes(s, T, Walk(s, T, ls[1..], fuel)));
    } else {
      assert AssembleList(s, T, ls, fuel) == [];
      assert Walk(s, T, ls, fuel) == [];
    }
  }

  /** Two sequences made of the same head and equal parts are equal. */
  lemma SameParts<T>(x: seq<T>, y: seq<T>, n: T, a: seq<T>, b: seq<T>, c: seq<T>, d: seq<T>)
    requires x == [n] + a + b && y == [n] + c + d && a == c && b == d
    ensures x == y
  {
  }

  /** The pre-order listing of an assembled list: its first node, that node's subtree, the rest. */
  lemma AssembledStep(s: seq<FlattenedItem>, T: seq<seq<nat>>, ls: seq<nat>, fuel: nat)
    requires TableFor(s, T) && forall k :: 0 <= k < |ls| ==> ls[k] < |s|
    requires ls != [] && fuel > 0
    ensures PreOrder(AssembleList(s, T, ls, fuel))
         == [AssembleNode(s, T, ls[0], fuel)]
          + PreOrder(AssembleList(s, T, T[ls[0]], fuel - 1))
          + PreOrder(AssembleList(s, T, ls[1..], fuel))
  {
    var node := AssembleNode(s, T, ls[0], fuel);
    var rest := AssembleList(s, T, ls[1..], fuel);
    assert AssembleList(s, T, ls, fuel) == [node] + rest;
    assert ([node] + rest)[1..] == rest;
  }

  /** The nodes of a walk: its first item's node, the walk below it, the walk after it. */
  lemma WalkStep(s: seq<FlattenedItem>, T: seq<seq<nat>>, ls: seq<nat>, fuel: nat)
    requires TableFor(s, T) && forall k :: 0 <= k < |ls| ==> ls[k] < |s|
    requires ls != [] && fuel > 0
    ensures Nodes(s, T, Walk(s, T, ls, fuel))
         == [AssembleNode(s, T, ls[0], fuel)]
          + Nodes(s, T, Walk(s, T, T[ls[0]], fuel - 1))
          + Nodes(s, T, Walk(s, T, ls[1..], fuel))
  {
    var w1 := Walk(s, T, T[ls[0]], fuel - 1);
    var w2 := Walk(s, T, ls[1..], fuel);
    NodesAppend(s, T, [(ls[0], fuel)] + w1, w2);
    NodesAppend(s, T, [(ls[0], fuel)], w1);
  }

  lemma {:induction false} NodesAppend(s: seq<FlattenedItem>, T: seq<seq<nat>>, a: seq<(nat, nat)>, b: seq<(nat, nat)>)
    requires TableFor(s, T)
    requires forall m :: 0 <= m < |a| ==> a[m].0 < |s| && a[m].1 > 0
    requires forall m :: 0 <= m < |b| ==> b[m].0 < |s| && b[m].1 > 0
    ensures Nodes(s, T, a + b) == Nodes(s, T, a) + Nodes(s, T, b)
    decreases |a|
  {
    if a == [] {
      assert a + b == b;
    } else {
      assert (a + b)[1..] == a[1..] + b;
      NodesAppend(s, T, a[1..], b);
    }
  }

  /** The walk `w` from items of level `g` with `fuel` visits items of level at least `g`, spending one fuel per level. */
  ghost predicate FuelTracks(D: seq<nat>, w: seq<(nat, nat)>, fuel: nat, g: nat)
  {
    forall m :: 0 <= m < |w| ==> w[m].0 < |D| && D[w[m].0] >= g && w[m].1 + D[w[m].0] == fuel + g
  }

  lemma {:induction false} WalkFuel(s: seq<FlattenedItem>, T: seq<seq<nat>>, P: seq<Ref>, D: seq<nat>,
                                    ls: seq<nat>, fuel: nat, g: nat)
    requires Levels(P, D) && |P| == |s| && TableFor(s, T) && TableOf(P, T)
    requires forall k :: 0 <= k < |ls| ==> ls[k] < |s| && D[ls[k]] == g
    ensures FuelTracks(D, Walk(s, T, ls, fuel), fuel, g)
    decreases fuel, |ls|
  {
    if ls != [] && fuel != 0 {
      var kids := T[ls[0]];
      assert ListsKids(P, kids, ItemRef(ls[0]));
      var w1 := Walk(s, T, kids, fuel - 1);
      var w2 := Walk(s, T, ls[1..], fuel);
      WalkFuel(s, T, P, D, kids, fuel - 1, g + 1);
      WalkFuel(s, T, P, D, ls[1..], fuel, g);
      var w := [(ls[0], fuel)] + w1 + w2;
      assert Walk(s, T, ls, fuel) == w;
      forall m | 0 <= m < |w| ensures w[m].0 < |D| && D[w[m].0] >= g && w[m].1 + D[w[m].0] == fuel + g {
        if m == 0 {
        } else if m < 1 + |w1| {
          assert w[m] == w1[m - 1];
        } else {
          assert w[m] == w2[m - 1 - |w1|];
        }
      }
    }
  }

  /** Distinct items, all of level `g`. */
  ghost predicate SameLevel(D: seq<nat>, ls: seq<nat>, g: nat)
  {
    && (forall k :: 0 <= k < |ls| ==> ls[k] < |D| && D[ls[k]] == g)
    && (forall i, j :: 0 <= i < j < |ls| ==> ls[i] != ls[j])
  }

  /** The children of an item of level `g` are distinct items of level `g + 1`. */
  lemma KidsLevel(P: seq<Ref>, D: seq<nat>, kids: seq<nat>, p: nat)
    requires Levels(P, D) && p < |P| && ListsKids(P, kids, ItemRef(p))
    ensures SameLevel(D, kids, D[p] + 1)
  {
    forall k | 0 <= k < |kids| ensures kids[k] < |D| && D[kids[k]] == D[p] + 1 {
      assert P[kids[k]] == ItemRef(p);
    }
  }

  lemma SameLevelTail(D: seq<nat>, ls: seq<nat>, g: nat)
    requires SameLevel(D, ls, g) && ls != []
    ensures SameLevel(D, ls[1..], g) && ls[0] < |D| && D[ls[0]] == g
  {
    forall i, j | 0 <= i < j < |ls| - 1 ensures ls[1..][i] != ls[1..][j] {
      assert ls[1..][i] == ls[i + 1] && ls[1..][j] == ls[j + 1];
    }
  }

  /** How often the walk from `ls` reaches `x`: once when its ancestor at level `g` is in `ls` and the fuel lasts. */
  ghost function Visits(P: seq<Ref>, D: seq<nat>, ls: seq<nat>, fuel: nat, g: nat, x: nat): nat
    requires Levels(P, D) && x < |P|
  {
    if g <= D[x] && D[x] - g < fuel && AncestorAt(P, D, x, g) in ls then 1 else 0
  }

  /**
   * The walk from distinct items of level `g` visits `x` once when its
   * ancestor at level `g` is among them and the fuel reaches `x`'s level,
   * and never otherwise.
   */
  lemma {:induction false} WalkCount(s: seq<FlattenedItem>, T: seq<seq<nat>>, P: seq<Ref>, D: seq<nat>,
                                     ls: seq<nat>, fuel: nat, g: nat, x: nat)
    requires Levels(P, D) && |P| == |s| && TableFor(s, T) && TableOf(P, T) && x < |s|
    requires SameLevel(D, ls, g)
    ensures multiset(Firsts(Walk(s, T, ls, fuel)))[x] == Visits(P, D, ls, fuel, g, x)
    decreases fuel, |ls|
  {
    if ls != [] && fuel != 0 {
      LevelStep(T, P, D, ls, fuel, g, x);
      WalkCountSplit(s, T, ls, fuel, x);
      WalkCount(s, T, P, D, T[ls[0]], fuel - 1, g + 1, x);
      WalkCount(s, T, P, D, ls[1..], fuel, g, x);
    } else {
      assert Firsts(Walk(s, T, ls, fuel)) == [];
    }
  }

  /** One step of the count: the head of `ls`, its children one level down, the rest of `ls`. */
  lemma LevelStep(T: seq<seq<nat>>, P: seq<Ref>, D: seq<nat>, ls: seq<nat>, fuel: nat, g: nat, x: nat)
    requires Levels(P, D) && TableOf(P, T) && x < |P|
    requires SameLevel(D, ls, g) && ls != [] && fuel > 0
    ensures SameLevel(D, ls[1..], g) && SameLevel(D, T[ls[0]], g + 1)
    ensures Visits(P, D, ls, fuel, g, x)
         == (if x == ls[0] then 1 else 0) + Visits(P, D, T[ls[0]], fuel - 1, g + 1, x) + Visits(P, D, ls[1..], fuel, g, x)
  {
    SameLevelTail(D, ls, g);
    var kids := T[ls[0]];
    assert ListsKids(P, kids, ItemRef(ls[0]));
    KidsLevel(P, D, kids, ls[0]);
    AncestorChoice(P, D, ls, kids, fuel, g, x);
  }

  /** How often a non-empty walk visits `x`: at its head, below it, or after it. */
  lemma WalkCountSplit(s: seq<FlattenedItem>, T: seq<seq<nat>>, ls: seq<nat>, fuel: nat, x: nat)
    requires TableFor(s, T) && forall k :: 0 <= k < |ls| ==> ls[k] < |s|
    requires ls != [] && fuel > 0
    ensures multiset(Firsts(Walk(s, T, ls, fuel)))[x]
         == (if x == ls[0] then 1 else 0)
          + multiset(Firsts(Walk(s, T, T[ls[0]], fuel - 1)))[x]
          + multiset(Firsts(Walk(s, T, ls[1..], fuel)))[x]
  {
    var w1 := Walk(s, T, T[ls[0]], fuel - 1);
    var w2 := Walk(s, T, ls[1..], fuel);
    assert Walk(s, T, ls, fuel) == [(ls[0], fuel)] + w1 + w2;
    FirstsSplit((ls[0], fuel), w1, w2);
  }

  /** The items of a walk that starts with `v` and goes on with `w1`, then `w2`. */
  lemma FirstsSplit(v: (nat, nat), w1: seq<(nat, nat)>, w2: seq<(nat, nat)>)
    ensures Firsts([v] + w1 + w2) == [v.0] + Firsts(w1) + Firsts(w2)
  {
    var a := Firsts([v] + w1 + w2);
    var b := [v.0] + Firsts(w1) + Firsts(w2);
    assert |a| == |b|;
    forall m | 0 <= m < |a| ensures a[m] == b[m] {
      if m == 0 {
      } else if m < 1 + |w1| {
        assert ([v] + w1 + w2)[m] == w1[m - 1];
      } else {
        assert ([v] + w1 + w2)[m] == w2[m - 1 - |w1|];
      }
    }
  }

  /**
   * The ancestor of `x` at level `g` is the head of `ls`, or its ancestor
   * one level down is a child of the head, or the ancestor at level `g`
   * is later in `ls`: exactly one of these when it is in `ls` at all.
   */
  lemma AncestorChoice(P: seq<Ref>, D: seq<nat>, ls: seq<nat>, kids: seq<nat>, fuel: nat, g: nat, x: nat)
    requires Levels(P, D) && x < |P| && ls != [] && fuel > 0
    requires SameLevel(D, ls, g)
    requires ListsKids(P, kids, ItemRef(ls[0]))
    ensures Visits(P, D, ls, fuel, g, x)
         == (if x == ls[0] then 1 else 0) + Visits(P, D, kids, fuel - 1, g + 1, x) + Visits(P, D, ls[1..], fuel, g, x)
  {
    assert ls == [ls[0]] + ls[1..];
    if g < D[x] {
      AncestorStep(P, D, x, g);
      var c := AncestorAt(P, D, x, g + 1);
      assert c in kids <==> P[c] == ItemRef(ls[0]);
      assert x != ls[0];
      if AncestorAt(P, D, x, g) == ls[0] {
        assert ls[0] !in ls[1..];
      }
    } else if g == D[x] {
      assert AncestorAt(P, D, x, g) == x;
      if x == ls[0] {
        assert ls[0] !in ls[1..];
      }
    }
  }

  // ---------------------------------------------------------------------------
  // Counting helpers
  // ---------------------------------------------------------------------------

  /** Two equal elements at different positions occur at least twice. */
  lemma TwiceCounted<T>(q: seq<T>, i: nat, j: nat)
    requires i < j < |q| && q[i] == q[j]
    ensures multiset(q)[q[i]] >= 2
  {
    assert q == q[..i] + [q[i]] + q[i + 1..j] + [q[j]] + q[j + 1..];
  }

  /** A position of `v` in `q`. */
  lemma Position<T>(q: seq<T>, v: T) returns (m: nat)
    requires v in q
    ensures m < |q| && q[m] == v
  {
    m :| 0 <= m < |q| && q[m] == v;
  }

  /** Two sequences without repetitions and with the same elements are permutations of each other. */
  lemma SameElements<T>(a: seq<T>, b: seq<T>)
    requires forall i, j :: 0 <= i < j < |a| ==> a[i] != a[j]
    requires forall i, j :: 0 <= i < j < |b| ==> b[i] != b[j]
    requires forall v :: v in a <==> v in b
    ensures multiset(a) == multiset(b)
  {
    forall v ensures multiset(a)[v] == multiset(b)[v] {
      CountDistinct(a, v);
      CountDistinct(b, v);
    }
  }

  /** In a sequence without repetitions every value occurs once or not at all. */
  lemma {:induction false} CountDistinct<T>(a: seq<T>, v: T)
    requires forall i, j :: 0 <= i < j < |a| ==> a[i] != a[j]
    ensures multiset(a)[v] == if v in a then 1 else 0
    decreases |a|
  {
    if a != [] {
      var tail := a[1..];
      assert a == [a[0]] + tail;
      forall i, j | 0 <= i < j < |tail| ensures tail[i] != tail[j] {
        assert tail[i] == a[i + 1] && tail[j] == a[j + 1];
      }
      CountDistinct(tail, v);
      if v == a[0] {
        assert v !in tail;
      }
    }
  }

  /** Assembled nodes with fuel to spare carry the ids of the positions they come from. */
  lemma {:induction false} AssembledIds(s: seq<FlattenedItem>, T: seq<seq<nat>>, ls: seq<nat>, fuel: nat)
    requires TableFor(s, T) && forall k :: 0 <= k < |ls| ==> ls[k] < |s|
    requires fuel > 0
    ensures IdList(AssembleList(s, T, ls, fuel)) == IdsAt(s, ls)
    decreases |ls|
  {
    if ls != [] {
      AssembledIds(s, T, ls[1..], fuel);
      assert IdsAt(s, ls) == [s[ls[0]].item.id] + IdsAt(s, ls[1..]);
    }
  }

  lemma {:induction false} IdsOfNodes(s: seq<FlattenedItem>, T: seq<seq<nat>>, w: seq<(nat, nat)>)
    requires TableFor(s, T)
    requires forall m :: 0 <= m < |w| ==> w[m].0 < |s| && w[m].1 > 0
    ensures IdList(Nodes(s, T, w)) == IdsAt(s, Firsts(w))
    decreases |w|
  {
    if w != [] {
      IdsOfNodes(s, T, w[1..]);
    }
  }

  // ---------------------------------------------------------------------------
  // The theorem
  // ---------------------------------------------------------------------------

  /** The links `P`, with consistent levels `D`, are the ones buildTree's children table records. */
  ghost predicate Linked(s: seq<FlattenedItem>, P: seq<Ref>, D: seq<nat>)
  {
    && |P| == |s| && Levels(P, D)
    && TableFor(s, ChildTable(s)) && TableOf(P, ChildTable(s))
    && forall j :: 0 <= j < |s| ==> ChildTable(s)[j] == Kids(P, ItemRef(j))
  }

  /** The children table's row for item `j` lists the items linked to it. */
  lemma TableRow(s: seq<FlattenedItem>, P: seq<Ref>, j: nat)
    requires |P| == |s| && forall k :: 0 <= k < |s| ==> ParentOf(s, k) == Some(P[k])
    requires j < |s|
    ensures ChildTable(s)[j] == Kids(P, ItemRef(j)) && ListsKids(P, ChildTable(s)[j], ItemRef(j))
  {
    ChildIndicesKids(s, P, ItemRef(j));
    KidsMembers(P, ItemRef(j));
  }

  /** When every item has a parent, no item is unresolved. */
  lemma AllResolved(s: seq<FlattenedItem>, P: seq<Ref>)
    requires |P| == |s| && forall k :: 0 <= k < |s| ==> ParentOf(s, k) == Some(P[k])
    ensures FirstUnresolved(s, 0).None?
  {
  }

  lemma ResolvedFromParents(s: seq<FlattenedItem>, P: seq<Ref>, D: seq<nat>)
    requires |P| == |s| && Levels(P, D)
    requires forall k :: 0 <= k < |s| ==> ParentOf(s, k) == Some(P[k])
    ensures Linked(s, P, D)
    ensures BuildTreeSpec(s) == Ok(AssembleList(s, ChildTable(s), Kids(P, RootRef), |s|))
  {
    AllResolved(s, P);
    AllRows(s, P);
    ChildIndicesKids(s, P, RootRef);
  }

  /** Every row of the children table lists the items linked to its item. */
  lemma AllRows(s: seq<FlattenedItem>, P: seq<Ref>)
    requires |P| == |s| && forall k :: 0 <= k < |s| ==> ParentOf(s, k) == Some(P[k])
    ensures |ChildTable(s)| == |s|
    ensures forall j :: 0 <= j < |s| ==> ChildTable(s)[j] == Kids(P, ItemRef(j)) && ListsKids(P, ChildTable(s)[j], ItemRef(j))
  {
    var T := ChildTable(s);
    forall j | 0 <= j < |s| ensures T[j] == Kids(P, ItemRef(j)) && ListsKids(P, T[j], ItemRef(j)) {
      TableRow(s, P, j);
    }
  }

  /** The top-level items are distinct items of level 0. */
  lemma RootsLevel(P: seq<Ref>, D: seq<nat>)
    requires Levels(P, D)
    ensures SameLevel(D, Kids(P, RootRef), 0)
  {
    var roots := Kids(P, RootRef);
    KidsMembers(P, RootRef);
    forall k | 0 <= k < |roots| ensures roots[k] < |D| && D[roots[k]] == 0 {
      assert P[roots[k]] == RootRef;
    }
  }

  /** The walk from the top level visits `x` once. */
  lemma WalkCoversAll(s: seq<FlattenedItem>, P: seq<Ref>, D: seq<nat>, x: nat)
    requires Linked(s, P, D) && x < |s|
    ensures multiset(Firsts(Walk(s, ChildTable(s), Kids(P, RootRef), |s|)))[x] == 1
  {
    var roots := Kids(P, RootRef);
    LevelBelow(P, D, x);
    var r0 := AncestorAt(P, D, x, 0);
    assert P[r0].RootRef?;
    KidsMembers(P, RootRef);
    assert r0 in roots;
    assert Visits(P, D, roots, |s|, 0, x) == 1;
    RootsLevel(P, D);
    WalkCount(s, ChildTable(s), P, D, roots, |s|, 0, x);
  }

  /** The walk from the top level visits every position once, with the fuel its level leaves. */
  lemma TopWalk(s: seq<FlattenedItem>, P: seq<Ref>, D: seq<nat>)
    requires Linked(s, P, D)
    ensures var w := Walk(s, ChildTable(s), Kids(P, RootRef), |s|);
      && (forall i, j :: 0 <= i < j < |w| ==> Firsts(w)[i] != Firsts(w)[j])
      && (forall x :: 0 <= x < |s| ==> x in Firsts(w))
      && FuelTracks(D, w, |s|, 0)
  {
    RootsLevel(P, D);
    WalkFuel(s, ChildTable(s), P, D, Kids(P, RootRef), |s|, 0);
    TopCovers(s, P, D);
    TopDistinct(s, P, D);
  }

  lemma TopCovers(s: seq<FlattenedItem>, P: seq<Ref>, D: seq<nat>)
    requires Linked(s, P, D)
    ensures forall x :: 0 <= x < |s| ==> x in Firsts(Walk(s, ChildTable(s), Kids(P, RootRef), |s|))
  {
    forall x | 0 <= x < |s| ensures x in Firsts(Walk(s, ChildTable(s), Kids(P, RootRef), |s|)) {
      WalkCoversAll(s, P, D, x);
    }
  }

  lemma TopDistinct(s: seq<FlattenedItem>, P: seq<Ref>, D: seq<nat>)
    requires Linked(s, P, D)
    ensures var F := Firsts(Walk(s, ChildTable(s), Kids(P, RootRef), |s|));
      forall i, j :: 0 <= i < j < |F| ==> F[i] != F[j]
  {
    var F := Firsts(Walk(s, ChildTable(s), Kids(P, RootRef), |s|));
    forall i, j | 0 <= i < j < |F| ensures F[i] != F[j] {
      if F[i] == F[j] {
        TwiceCounted(F, i, j);
        WalkCoversAll(s, P, D, F[i]);
      }
    }
  }

  /** The ids the top-level walk visits: no id twice, and every id of the list. */
  lemma WalkIds(s: seq<FlattenedItem>, P: seq<Ref>, D: seq<nat>)
    requires DistinctIds(s) && Linked(s, P, D)
    ensures var u := IdsAt(s, Firsts(Walk(s, ChildTable(s), Kids(P, RootRef), |s|)));
      && (forall i, j :: 0 <= i < j < |u| ==> u[i] != u[j])
      && multiset(u) == multiset(IdsOf(s))
  {
    var F := Firsts(Walk(s, ChildTable(s), Kids(P, RootRef), |s|));
    TopWalk(s, P, D);
    IdsAtDistinct(s, F);
    IdsAtCover(s, F);
    SameElements(IdsAt(s, F), IdsOf(s));
  }

  /** Distinct positions of a list with distinct ids carry distinct ids. */
  lemma IdsAtDistinct(s: seq<FlattenedItem>, F: seq<nat>)
    requires DistinctIds(s) && forall k :: 0 <= k < |F| ==> F[k] < |s|
    requires forall i, j :: 0 <= i < j < |F| ==> F[i] != F[j]
    ensures var u := IdsAt(s, F); forall i, j :: 0 <= i < j < |u| ==> u[i] != u[j]
  {
    var u := IdsAt(s, F);
    forall i, j | 0 <= i < j < |u| ensures u[i] != u[j] {
      assert F[i] != F[j];
      if F[i] > F[j] {
        assert s[F[j]].item.id != s[F[i]].item.id;
      }
    }
  }

  /** Positions that cover the list carry every id of the list, and only those. */
  lemma IdsAtCover(s: seq<FlattenedItem>, F: seq<nat>)
    requires forall k :: 0 <= k < |F| ==> F[k] < |s|
    requires forall x :: 0 <= x < |s| ==> x in F
    ensures forall v :: v in IdsAt(s, F) <==> v in IdsOf(s)
  {
    var u := IdsAt(s, F);
    var ids := IdsOf(s);
    forall v ensures v in u <==> v in ids {
      if v in ids {
        var x := Position(ids, v);
        var m := Position(F, x);
        assert u[m] == v;
      }
      if v in u {
        var m := Position(u, v);
        assert ids[F[m]] == v;
      }
    }
  }

  /** The assembled forest lists every id of the list once. */
  lemma AssembledForest(s: seq<FlattenedItem>, P: seq<Ref>, D: seq<nat>)
    requires DistinctIds(s) && Linked(s, P, D)
    ensures var t := AssembleList(s, ChildTable(s), Kids(P, RootRef), |s|);
      multiset(IdList(PreOrder(t))) == multiset(IdsOf(s)) && UniqueIds(t)
  {
    var T := ChildTable(s);
    var w := Walk(s, T, Kids(P, RootRef), |s|);
    var t := AssembleList(s, T, Kids(P, RootRef), |s|);
    WalkPreOrder(s, T, Kids(P, RootRef), |s|);
    IdsOfNodes(s, T, w);
    WalkIds(s, P, D);
    var p := PreOrder(t);
    var u := IdList(p);
    forall i, j | 0 <= i < j < |p| ensures p[i].id != p[j].id {
      assert u[i] != u[j];
    }
  }

  /** findItemDeep finds an item's id at the node assembled for that item, with the fuel its level leaves. */
  lemma NodeFound(s: seq<FlattenedItem>, P: seq<Ref>, D: seq<nat>, x: nat) returns (h: nat)
    requires DistinctIds(s) && Linked(s, P, D) && x < |s|
    ensures h > 0 && h + D[x] == |s|
    ensures FindItemDeep(AssembleList(s, ChildTable(s), Kids(P, RootRef), |s|), s[x].item.id)
         == Some(AssembleNode(s, ChildTable(s), x, h))
  {
    var T := ChildTable(s);
    var t := AssembleList(s, T, Kids(P, RootRef), |s|);
    var w := Walk(s, T, Kids(P, RootRef), |s|);
    WalkPreOrder(s, T, Kids(P, RootRef), |s|);
    TopWalk(s, P, D);
    var m := Position(Firsts(w), x);
    assert forall k :: 0 <= k < m ==> w[k].0 != w[m].0 by {
      forall k | 0 <= k < m ensures w[k].0 != w[m].0 {
        assert Firsts(w)[k] != Firsts(w)[m];
      }
    }
    FirstNode(s, T, w, m);
    FindItemDeepIsFirst(t, s[x].item.id);
    h := w[m].1;
  }

  /** In a walk that reaches item `w[m].0` first at `m`, the node built there is the first with its id. */
  lemma FirstNode(s: seq<FlattenedItem>, T: seq<seq<nat>>, w: seq<(nat, nat)>, m: nat)
    requires DistinctIds(s) && TableFor(s, T)
    requires forall k :: 0 <= k < |w| ==> w[k].0 < |s| && w[k].1 > 0
    requires m < |w| && forall k :: 0 <= k < m ==> w[k].0 != w[m].0
    ensures Nodes(s, T, w)[m] == AssembleNode(s, T, w[m].0, w[m].1)
    ensures FirstWithId(Nodes(s, T, w), s[w[m].0].item.id) == Some(m)
  {
    NodeAt(s, T, w, m);
    forall k | 0 <= k < m ensures Nodes(s, T, w)[k].id != s[w[m].0].item.id {
      NodeAt(s, T, w, k);
    }
    FirstWithIdAt(Nodes(s, T, w), s[w[m].0].item.id, m);
  }

  /** The node assembled for item `x` has as children the items linked to it, in list order. */
  lemma NodeChildren(s: seq<FlattenedItem>, P: seq<Ref>, D: seq<nat>, x: nat, h: nat)
    requires Linked(s, P, D) && x < |s| && h > 0 && h + D[x] == |s|
    ensures IdList(AssembleNode(s, ChildTable(s), x, h).children) == IdsAt(s, Kids(P, ItemRef(x)))
  {
    var T := ChildTable(s);
    assert T[x] == Kids(P, ItemRef(x)) && ListsKids(P, T[x], ItemRef(x));
    ChildrenOfNode(s, T, P, D, x, h);
  }

  /** The children assembled for item `x` carry the ids of its row of the table. */
  lemma ChildrenOfNode(s: seq<FlattenedItem>, T: seq<seq<nat>>, P: seq<Ref>, D: seq<nat>, x: nat, h: nat)
    requires TableFor(s, T) && |P| == |s| && Levels(P, D) && x < |s|
    requires ListsKids(P, T[x], ItemRef(x)) && h > 0 && h + D[x] == |s|
    ensures IdList(AssembleNode(s, T, x, h).children) == IdsAt(s, T[x])
  {
    var ls := T[x];
    assert AssembleNode(s, T, x, h).children == AssembleList(s, T, ls, h - 1);
    if ls != [] {
      KidFuel(P, D, ls, x, h);
      AssembledIds(s, T, ls, h - 1);
    }
  }

  /** An item with children sits above the deepest level, so the fuel its level leaves is more than one. */
  lemma KidFuel(P: seq<Ref>, D: seq<nat>, ls: seq<nat>, x: nat, h: nat)
    requires Levels(P, D) && x < |P| && ListsKids(P, ls, ItemRef(x)) && ls != []
    requires h + D[x] == |P|
    ensures h > 1
  {
    var c := ls[0];
    assert P[c] == ItemRef(x);
    LevelBelow(P, D, c);
  }

  /** An item's node is the only node with its id, and its children are the items linked to it. */
  lemma NodeOfItem(s: seq<FlattenedItem>, P: seq<Ref>, D: seq<nat>, x: nat)
    requires DistinctIds(s) && Linked(s, P, D) && x < |s|
    ensures var t := AssembleList(s, ChildTable(s), Kids(P, RootRef), |s|);
      && FindItemDeep(t, s[x].item.id).Some?
      && IdList(FindItemDeep(t, s[x].item.id).value.children) == IdsAt(s, Kids(P, ItemRef(x)))
  {
    var h := NodeFound(s, P, D, x);
    NodeChildren(s, P, D, x, h);
  }

  /**
   * buildTree on a list with distinct ids whose resolved parents `P` have
   * consistent levels `D`: it succeeds, its tree lists every id exactly as
   * often as the list does, no id twice, and each item's node has as
   * children the items linked to it, in list order.
   */
  lemma RebuildForest(s: seq<FlattenedItem>, P: seq<Ref>, D: seq<nat>)
    requires DistinctIds(s)
    requires |P| == |s| && Levels(P, D)
    requires forall k :: 0 <= k < |s| ==> ParentOf(s, k) == Some(P[k])
    ensures BuildTreeSpec(s).Ok?
    ensures var t := BuildTreeSpec(s).value;
      && multiset(IdList(PreOrder(t))) == multiset(IdsOf(s))
      && UniqueIds(t)
      && forall x :: 0 <= x < |s| ==>
           FindItemDeep(t, s[x].item.id).Some?
           && IdList(FindItemDeep(t, s[x].item.id).value.children) == IdsAt(s, Kids(P, ItemRef(x)))
  {
    ResolvedFromParents(s, P, D);
    var t := AssembleList(s, ChildTable(s), Kids(P, RootRef), |s|);
    assert BuildTreeSpec(s).value == t;
    AssembledForest(s, P, D);
    AllNodes(s, P, D);
  }

  /** Every item's node is found in the assembled forest, with the items linked to it as children. */
  lemma AllNodes(s: seq<FlattenedItem>, P: seq<Ref>, D: seq<nat>)
    requires DistinctIds(s) && Linked(s, P, D)
    ensures var t := AssembleList(s, ChildTable(s), Kids(P, RootRef), |s|);
      forall x :: 0 <= x < |s| ==>
        FindItemDeep(t, s[x].item.id).Some?
        && IdList(FindItemDeep(t, s[x].item.id).value.children) == IdsAt(s, Kids(P, ItemRef(x)))
  {
    var t := AssembleList(s, ChildTable(s), Kids(P, RootRef), |s|);
    forall x | 0 <= x < |s|
      ensures FindItemDeep(t, s[x].item.id).Some?
        && IdList(FindItemDeep(t, s[x].item.id).value.children) == IdsAt(s, Kids(P, ItemRef(x)))
    {
      NodeOfItem(s, P, D, x);
    }
  }
}
