/** The edges a daemon knows (src/edge.c): an edge tree for each node, one tree of all edges by
    weight, and the reverse pointers. */
module EdgeStores {
  import opened Common
  import opened Names
  import opened Edges
  import opened EdgeTrees

  ghost predicate HasKey(all: set<Edge>, k: Key) {
    exists e <- all :: KeyOf(e) == k
  }

  /** The edges that are there in both directions. */
  ghost function TwoWayOf(all: set<Edge>): set<Edge> {
    set e | e in all && HasKey(all, Flip(KeyOf(e)))
  }

  ghost predicate TreeOk(n: Name, nodes: set<Name>, t: seq<Edge>) {
    SortedBy(EdgeCompare, t) && forall e <- t :: e.from == n && e.to in nodes && e.to != n
  }

  ghost predicate TreesOk(trees: map<Name, seq<Edge>>) {
    forall n <- trees.Keys :: TreeOk(n, trees.Keys, trees[n])
  }

  ghost predicate WeightsOk(weights: seq<Edge>, base: int) {
    SortedBy(EdgeWeightCompare, weights) && Within(weights, SafeEdges(base))
  }

  /** The trees of the nodes hold these edges. */
  ghost predicate Holds(trees: map<Name, seq<Edge>>, all: set<Edge>) {
    forall e: Edge :: e in all <==> e.from in trees && e in trees[e.from]
  }

  /** An edge has a reverse pointer exactly if the opposite edge is there, and it points to that. */
  ghost predicate ReverseOk(reverse: map<Key, Key>, all: set<Edge>) {
    && (forall k <- reverse.Keys :: reverse[k] == Flip(k))
    && (forall k: Key :: k in reverse <==> HasKey(all, k) && HasKey(all, Flip(k)))
  }

  ghost predicate Unique(all: set<Edge>) {
    forall e, f | e in all && f in all && KeyOf(e) == KeyOf(f) :: e == f
  }

  lemma StoreUnique(trees: map<Name, seq<Edge>>, all: set<Edge>)
    requires TreesOk(trees) && Holds(trees, all)
    ensures Unique(all)
  {
    forall e, f | e in all && f in all && KeyOf(e) == KeyOf(f)
      ensures e == f
    {
      SameTo(trees[e.from], e, f);
    }
  }

  lemma SameTo(t: seq<Edge>, e: Edge, f: Edge)
    requires SortedBy(EdgeCompare, t) && e in t && f in t && e.to == f.to
    ensures e == f
  {
    var i :| 0 <= i < |t| && t[i] == e;
    var j :| 0 <= j < |t| && t[j] == f;
    assert EdgeCompare(t[i], t[j]) == 0 && EdgeCompare(t[j], t[i]) == 0;
  }

  lemma AnyWithin(t: seq<Edge>)
    ensures Within(t, AnyEdges())
  {
  }

  /** A tree of a node changed to hold other edges. */
  lemma TreeChanged(trees: map<Name, seq<Edge>>, all: set<Edge>, n: Name, t: seq<Edge>, all': set<Edge>)
    requires TreesOk(trees) && Holds(trees, all) && n in trees && TreeOk(n, trees.Keys, t)
    requires forall e: Edge | e.from != n :: e in all <==> e in all'
    requires forall e: Edge | e.from == n :: e in all' <==> e in t
    ensures TreesOk(trees[n := t]) && Holds(trees[n := t], all')
  {
    hide TreeOk;
    var trees' := trees[n := t];
    assert trees'.Keys == trees.Keys;
    forall m <- trees'.Keys
      ensures TreeOk(m, trees'.Keys, trees'[m])
    {
    }
  }

  /** Reverse pointers after an edge is added. */
  lemma ReverseAdd(reverse: map<Key, Key>, all: set<Edge>, e: Edge)
    requires ReverseOk(reverse, all) && !HasKey(all, KeyOf(e)) && e.from != e.to
    ensures var k := KeyOf(e);
            var r := if HasKey(all, Flip(k)) then reverse[k := Flip(k)][Flip(k) := k] else reverse;
            ReverseOk(r, all + {e})
  {
    var k := KeyOf(e);
    var all' := all + {e};
    forall j: Key
      ensures HasKey(all', j) <==> HasKey(all, j) || j == k
    {
      KeyAdded(all, e, j);
    }
  }

  lemma KeyAdded(all: set<Edge>, e: Edge, j: Key)
    ensures HasKey(all + {e}, j) <==> HasKey(all, j) || j == KeyOf(e)
  {
    if HasKey(all, j) {
      var f :| f in all && KeyOf(f) == j;
      assert f in all + {e};
    }
    if j == KeyOf(e) {
      assert e in all + {e};
    }
  }

  lemma KeyRemoved(all: set<Edge>, e: Edge, j: Key)
    requires Unique(all) && e in all
    ensures HasKey(all - {e}, j) <==> HasKey(all, j) && j != KeyOf(e)
  {
    if HasKey(all, j) && j != KeyOf(e) {
      var f :| f in all && KeyOf(f) == j;
      assert f in all - {e};
    }
  }

  /** Reverse pointers after an edge is removed. */
  lemma ReverseDel(reverse: map<Key, Key>, all: set<Edge>, e: Edge)
    requires ReverseOk(reverse, all) && Unique(all) && e in all && e.from != e.to
    ensures ReverseOk(reverse - {KeyOf(e), Flip(KeyOf(e))}, all - {e})
  {
    var k := KeyOf(e);
    forall j: Key
      ensures HasKey(all - {e}, j) <==> HasKey(all, j) && j != k
    {
      KeyRemoved(all, e, j);
    }
  }

  lemma KeysChanged(all: set<Edge>, e: Edge, f: Edge, reverse: map<Key, Key>)
    requires Unique(all) && e in all && KeyOf(f) == KeyOf(e) && ReverseOk(reverse, all)
    ensures ReverseOk(reverse, all - {e} + {f})
  {
    forall j: Key
      ensures HasKey(all - {e} + {f}, j) <==> HasKey(all, j)
    {
      KeyRemoved(all, e, j);
      KeyAdded(all - {e}, f, j);
    }
  }

  class EdgeStore {
    var trees: map<Name, seq<Edge>>
    var weights: seq<Edge>
    var reverse: map<Key, Key>
    /** All weights are from the 2^31 values that start here. */
    ghost const base: int

    ghost function All(): set<Edge>
      reads this
    {
      Items(weights)
    }

    ghost predicate Valid()
      reads this
    {
      TreesOk(trees) && WeightsOk(weights, base) && Holds(trees, All()) && ReverseOk(reverse, All())
    }

    constructor (ghost base: int)
      ensures Valid() && trees == map[] && All() == {} && this.base == base
    {
      this.base := base;
      trees, weights, reverse := map[], [], map[];
    }

    /** node_add, so far as edges are concerned. */
    method AddNode(n: Name)
      requires Valid() && n !in trees
      modifies this`trees
      ensures Valid() && trees.Keys == old(trees.Keys) + {n}
    {
      NodeAdded(trees, n, All());
      trees := trees[n := []];
    }

    /** lookup_edge. */
    method Lookup(from: Name, to: Name) returns (r: Option<Edge>)
      requires Valid() && from in trees
      ensures r.Some? ==> r.value in All() && KeyOf(r.value) == (from, to)
      ensures r.None? ==> !HasKey(All(), (from, to))
    {
      r := FindEdge(trees, from, to, All());
    }

    /** edge_add: nothing happens if there is an edge with the same ends. */
    method Add(e: Edge)
      requires Valid() && e.from in trees && e.to in trees && e.from != e.to && InRange(base, e.weight)
      modifies this
      ensures Valid() && trees.Keys == old(trees.Keys)
      ensures All() == if HasKey(old(All()), KeyOf(e)) then old(All()) else old(All()) + {e}
    {
      hide TreesOk, WeightsOk, Holds, ReverseOk, HasKey;
      ghost var all := All();
      var tree, ok := InsertInto(trees, e, all);
      if !ok {
        return;
      }
      ReverseAdd(reverse, all, e);
      var r := FindEdge(trees, e.to, e.from, all);
      trees := trees[e.from := tree];
      if r.Some? {
        SomeKey(all, r.value);
        reverse := reverse[KeyOf(e) := Flip(KeyOf(e))][Flip(KeyOf(e)) := KeyOf(e)];
      }
      weights := InsertByWeight(weights, e, base);
    }

    /** edge_del. */
    method Del(e: Edge)
      requires Valid() && e in All()
      modifies this
      ensures Valid() && trees.Keys == old(trees.Keys) && All() == old(All()) - {e}
    {
      hide TreesOk, WeightsOk, Holds, ReverseOk, Unique;
      ghost var all := All();
      StoreUnique(trees, all);
      ProperEdge(trees, all, e);
      ReverseDel(reverse, all, e);
      if KeyOf(e) in reverse {
        reverse := reverse - {KeyOf(e), Flip(KeyOf(e))};
      } else {
        NoReverse(reverse, all, KeyOf(e));
      }
      weights := DeleteByWeight(weights, e, base);
      var tree := DeleteFrom(trees, e, all);
      trees := trees[e.from := tree];
    }

    /** The in-place changes of add_edge_h: an edge gets new data, and is moved within the tree by
        weight if its weight changes. */
    method Change(e: Edge, f: Edge)
      requires Valid() && e in All() && KeyOf(f) == KeyOf(e) && InRange(base, f.weight) && f != e
      modifies this
      ensures Valid() && trees.Keys == old(trees.Keys) && All() == old(All()) - {e} + {f}
    {
      hide TreesOk, WeightsOk, Holds, ReverseOk, Unique, HasKey;
      ghost var all := All();
      StoreUnique(trees, all);
      OtherEdge(all, e, f);
      KeysChanged(all, e, f, reverse);
      var tree := ChangeIn(trees, e, f, all);
      trees := trees[e.from := tree];
      if e.weight == f.weight {
        weights := OverwriteByWeight(weights, e, f, base);
      } else {
        weights := DeleteByWeight(weights, e, base);
        KeyGone(all, e);
        weights := InsertByWeight(weights, f, base);
      }
    }

    /** node_del for a node without edges. */
    method DelNode(n: Name)
      requires Valid() && n in trees && trees[n] == [] && forall e <- All() :: e.to != n
      modifies this`trees
      ensures Valid() && trees.Keys == old(trees.Keys) - {n}
    {
      NodeRemoved(trees, n, All());
      trees := trees - {n};
    }
  }

  lemma NodeRemoved(trees: map<Name, seq<Edge>>, n: Name, all: set<Edge>)
    requires TreesOk(trees) && Holds(trees, all) && n in trees && trees[n] == [] && forall e <- all :: e.to != n
    ensures TreesOk(trees - {n}) && Holds(trees - {n}, all)
  {
    var t := trees - {n};
    forall m <- t.Keys
      ensures TreeOk(m, t.Keys, t[m])
    {
      assert TreeOk(m, trees.Keys, trees[m]);
      EdgesOf(trees, m, all);
    }
  }

  lemma ProperEdge(trees: map<Name, seq<Edge>>, all: set<Edge>, e: Edge)
    requires TreesOk(trees) && Holds(trees, all) && e in all
    ensures e.from in trees && e.to in trees && e.from != e.to
  {
    assert TreeOk(e.from, trees.Keys, trees[e.from]);
  }

  lemma NoReverse(reverse: map<Key, Key>, all: set<Edge>, k: Key)
    requires ReverseOk(reverse, all) && k !in reverse
    ensures reverse - {k, Flip(k)} == reverse
  {
  }

  lemma OtherEdge(all: set<Edge>, e: Edge, f: Edge)
    requires Unique(all) && e in all && KeyOf(f) == KeyOf(e) && f != e
    ensures f !in all
  {
  }

  lemma KeyGone(all: set<Edge>, e: Edge)
    requires Unique(all) && e in all
    ensures !HasKey(all - {e}, KeyOf(e))
  {
  }

  method DeleteByWeight(weights: seq<Edge>, e: Edge, ghost base: int) returns (w: seq<Edge>)
    requires WeightsOk(weights, base) && e in weights && Unique(Items(weights))
    ensures WeightsOk(w, base) && Items(w) == Items(weights) - {e}
  {
    WeightOrder(base);
    w := Delete(EdgeWeightCompare, weights, e, SafeEdges(base));
    forall x <- weights
      ensures EdgeWeightCompare(e, x) == 0 <==> x == e
    {
      assert x in Items(weights) && e in Items(weights);
      EdgeWeightCompareZero(e, x);
    }
  }

  method OverwriteByWeight(weights: seq<Edge>, e: Edge, f: Edge, ghost base: int) returns (w: seq<Edge>)
    requires WeightsOk(weights, base) && e in weights && f !in weights && KeyOf(f) == KeyOf(e) && f.weight == e.weight
    ensures WeightsOk(w, base) && Items(w) == Items(weights) - {e} + {f}
  {
    assert e in SafeEdges(base);
    EdgeWeightCompareZero(e, e);
    w := Overwrite(EdgeWeightCompare, weights, e, f, SafeEdges(base));
  }

  method DeleteFrom(trees: map<Name, seq<Edge>>, e: Edge, ghost all: set<Edge>) returns (tree: seq<Edge>)
    requires TreesOk(trees) && Holds(trees, all) && Unique(all) && e in all
    ensures e.from in trees && TreesOk(trees[e.from := tree]) && Holds(trees[e.from := tree], all - {e})
  {
    ghost var was := trees[e.from];
    assert TreeOk(e.from, trees.Keys, was);
    AnyWithin(was);
    EdgesOf(trees, e.from, all);
    ToOrder();
    tree := Delete(EdgeCompare, trees[e.from], e, AnyEdges());
    assert forall x <- was :: EdgeCompare(e, x) == 0 <==> x == e;
    assert forall x :: x in tree <==> x in Items(tree);
    TreeChanged(trees, all, e.from, tree, all - {e});
  }

  method ChangeIn(trees: map<Name, seq<Edge>>, e: Edge, f: Edge, ghost all: set<Edge>) returns (tree: seq<Edge>)
    requires TreesOk(trees) && Holds(trees, all) && Unique(all) && e in all && f !in all && KeyOf(f) == KeyOf(e)
    ensures e.from in trees && TreesOk(trees[e.from := tree]) && Holds(trees[e.from := tree], all - {e} + {f})
  {
    ghost var was := trees[e.from];
    assert TreeOk(e.from, trees.Keys, was);
    AnyWithin(was);
    EdgesOf(trees, e.from, all);
    tree := Overwrite(EdgeCompare, trees[e.from], e, f, AnyEdges());
    assert forall x :: x in tree <==> x in Items(tree);
    assert forall x :: x in was <==> x in Items(was);
    TreeChanged(trees, all, e.from, tree, all - {e} + {f});
  }

  lemma SomeKey(all: set<Edge>, e: Edge)
    requires e in all
    ensures HasKey(all, KeyOf(e))
  {
  }

  /** Search the edge tree of a node. */
  method FindEdge(trees: map<Name, seq<Edge>>, from: Name, to: Name, ghost all: set<Edge>) returns (r: Option<Edge>)
    requires Holds(trees, all) && TreesOk(trees) && from in trees
    ensures r.Some? ==> r.value in all && KeyOf(r.value) == (from, to)
    ensures r.None? ==> !HasKey(all, (from, to))
  {
    r := Find(EdgeCompare, trees[from], Edge(from, to, 0, 0, Unspecified, Unspecified));
    EdgesOf(trees, from, all);
    assert TreeOk(from, trees.Keys, trees[from]);
  }

  /** Insert an edge in the tree of its node. */
  method InsertInto(trees: map<Name, seq<Edge>>, e: Edge, ghost all: set<Edge>) returns (tree: seq<Edge>, ok: bool)
    requires TreesOk(trees) && Holds(trees, all)
    requires e.from in trees && e.to in trees && e.from != e.to
    ensures ok <==> !HasKey(all, KeyOf(e))
    ensures ok ==> TreesOk(trees[e.from := tree]) && Holds(trees[e.from := tree], all + {e})
  {
    ghost var was := trees[e.from];
    assert TreeOk(e.from, trees.Keys, was);
    AnyWithin(was);
    EdgesOf(trees, e.from, all);
    ToOrder();
    tree, ok := Insert(EdgeCompare, trees[e.from], e, AnyEdges());
    assert forall x <- was :: x in all && (EdgeCompare(e, x) == 0 <==> KeyOf(x) == KeyOf(e));
    if ok {
      assert forall x :: x in tree <==> x in Items(tree);
      assert forall x :: x in was <==> x in Items(was);
      TreeChanged(trees, all, e.from, tree, all + {e});
    }
  }

  /** Insert an edge in the tree by weight. */
  method InsertByWeight(weights: seq<Edge>, e: Edge, ghost base: int) returns (w: seq<Edge>)
    requires WeightsOk(weights, base) && InRange(base, e.weight) && !HasKey(Items(weights), KeyOf(e))
    ensures WeightsOk(w, base) && Items(w) == Items(weights) + {e}
  {
    WeightOrder(base);
    var ok;
    w, ok := Insert(EdgeWeightCompare, weights, e, SafeEdges(base));
    forall x <- weights
      ensures EdgeWeightCompare(e, x) != 0
    {
      assert x in Items(weights);
      EdgeWeightCompareZero(e, x);
    }
  }

  lemma NodeAdded(trees: map<Name, seq<Edge>>, n: Name, all: set<Edge>)
    requires TreesOk(trees) && Holds(trees, all) && n !in trees
    ensures TreesOk(trees[n := []]) && Holds(trees[n := []], all)
  {
  }

  /** The edges of a node are those in its tree. */
  lemma EdgesOf(trees: map<Name, seq<Edge>>, n: Name, all: set<Edge>)
    requires Holds(trees, all) && n in trees
    ensures forall e: Edge | e.from == n :: e in all <==> e in trees[n]
  {
  }
}
