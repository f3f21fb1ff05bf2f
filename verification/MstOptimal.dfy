/** What the broadcast tree is: a minimum-weight spanning tree of its component. */
module MstOptimal {
  import opened Names
  import opened Edges
  import opened Cuts
  import opened Mst

  /** The total weight of a set of edges. */
  ghost function Weight(es: set<Edge>): int {
    if es == {} then 0
    else
      var e :| e in es;
      e.weight + Weight(es - {e})
  }

  lemma {:induction false} WeightSplit(es: set<Edge>, e: Edge)
    requires e in es
    ensures Weight(es) == e.weight + Weight(es - {e})
    decreases es
  {
    var x :| x in es && Weight(es) == x.weight + Weight(es - {x});
    if x != e {
      WeightSplit(es - {x}, e);
      WeightSplit(es - {e}, x);
      assert es - {x} - {e} == es - {e} - {x};
    }
  }

  lemma WeightExchange(t: set<Edge>, f: Edge, e: Edge)
    requires f in t && e !in t
    ensures Weight(t - {f} + {e}) == Weight(t) - f.weight + e.weight
  {
    WeightSplit(t, f);
    WeightSplit(t - {f} + {e}, e);
    assert t - {f} + {e} - {e} == t - {f};
  }

  /** The edge list is in edge_weight_compare order and its weights do not wrap. */
  ghost predicate WeightSorted(edges: seq<Edge>) {
    && (forall e, f | e in edges && f in edges :: Comparable(e.weight, f.weight))
    && (forall i, j | 0 <= i < j < |edges| :: EdgeWeightCompare(edges[i], edges[j]) < 0)
  }

  /** One more edge across the boundary keeps a tree a tree. */
  lemma ExtendTree(c: set<Edge>, s: set<Name>, e: Edge)
    requires SpanningTree(c, s) && Crosses(e, s)
    ensures e !in c
    ensures SpanningTree(c + {e}, s + {e.from, e.to})
  {
    var v := s + {e.from, e.to};
    assert s != {};
    assert v == s + {if e.from in s then e.to else e.from};
    forall d: set<Name> | d <= v && d != {} && Closed(c + {e}, d)
      ensures d == v
    {
      var inside := d * s;
      assert Closed(c, inside);
      assert e in c + {e};
      assert inside == {} || inside == s;
    }
  }

  /** The first candidate is a lightest two-way edge across the boundary. */
  lemma FirstIsLightest(edges: seq<Edge>, rev: set<Key>, s: set<Name>, f: Edge)
    requires WeightSorted(edges)
    requires f in TwoWay(edges, rev) && Crosses(f, s)
    ensures First(edges, rev, s, 0) < |edges|
    ensures var e := edges[First(edges, rev, s, 0)]; e == f || EdgeWeightCompare(e, f) < 0
    ensures edges[First(edges, rev, s, 0)].weight <= f.weight
  {
    var k := First(edges, rev, s, 0);
    var i :| 0 <= i < |edges| && edges[i] == f;
    assert Candidate(edges[i], rev, s);
    if k != i {
      ComparableOrder(edges[k], f);
    }
  }

  /** The edges that Grow adds to a tree on `s` give a tree on everything it visits,
      and no two-way edge leaves that set. */
  lemma {:induction false} GrowSpans(edges: seq<Edge>, rev: set<Key>, s: set<Name>, c: set<Edge>)
    requires SpanningTree(c, s)
    ensures var tree := Grow(edges, rev, s);
            && SpanningTree(c + Elements(tree), s + EndsOf(tree))
            && Closed(TwoWay(edges, rev), s + EndsOf(tree))
            && Elements(tree) <= TwoWay(edges, rev)
    decreases Pending(edges, s)
  {
    var tree := Grow(edges, rev, s);
    var k := First(edges, rev, s, 0);
    if k == |edges| {
      assert c + Elements([]) == c && s + EndsOf([]) == s;
      forall e <- TwoWay(edges, rev)
        ensures e.from in s <==> e.to in s
      {
        var i :| 0 <= i < |edges| && edges[i] == e;
        assert !Candidate(edges[i], rev, s);
      }
    } else {
      var e := edges[k];
      var s' := s + {e.from, e.to};
      ExtendTree(c, s, e);
      PendingShrinks(edges, s, k);
      GrowSpans(edges, rev, s', c + {e});
      var rest := Grow(edges, rev, s');
      EndsOfCons(e, rest);
      assert c + {e} + Elements(rest) == c + Elements(tree);
      assert s' + EndsOf(rest) == s + EndsOf(tree);
    }
  }

  lemma {:induction false} EndsOfCons(e: Edge, rest: seq<Edge>)
    ensures EndsOf([e] + rest) == {e.from, e.to} + EndsOf(rest)
    ensures Elements([e] + rest) == {e} + Elements(rest)
  {
    if rest != [] {
      EndsOfCons(e, rest[..|rest| - 1]);
      assert ([e] + rest)[..|rest|] == [e] + rest[..|rest| - 1];
    } else {
      assert [e] + rest == [e];
      assert EndsOf([e]) == EndsOf([]) + {e.from, e.to};
    }
  }

  /** When no candidate is left the tree is complete. */
  lemma NothingLeft(edges: seq<Edge>, rev: set<Key>, s: set<Name>, c: set<Edge>, v: set<Name>, t: set<Edge>)
    requires First(edges, rev, s, 0) == |edges|
    requires SpanningTree(c, s) && s <= v
    requires SpanningTree(t, v) && c <= t <= TwoWay(edges, rev)
    ensures c + Elements(Grow(edges, rev, s)) == t
  {
    GrowSpans(edges, rev, s, c);
    assert s + EndsOf([]) == s && c + Elements([]) == c;
    assert Closed(t, s) && s != {};
    SubsetSameSize(c, t);
  }

  /** A spanning tree above `c` can be made to contain the first candidate without getting heavier. */
  lemma ContainsLightest(edges: seq<Edge>, rev: set<Key>, s: set<Name>, c: set<Edge>, v: set<Name>, t: set<Edge>)
    returns (t': set<Edge>)
    requires WeightSorted(edges)
    requires First(edges, rev, s, 0) < |edges|
    requires SpanningTree(c, s) && s <= v && Closed(TwoWay(edges, rev), v)
    requires SpanningTree(t, v) && c <= t <= TwoWay(edges, rev)
    ensures SpanningTree(t', v) && c + {edges[First(edges, rev, s, 0)]} <= t' <= TwoWay(edges, rev)
    ensures Weight(t') <= Weight(t)
    ensures var e := edges[First(edges, rev, s, 0)]; s + {e.from, e.to} <= v
  {
    var e := edges[First(edges, rev, s, 0)];
    assert e in TwoWay(edges, rev);
    if e in t {
      t' := t;
    } else {
      var f := Exchange(t, v, s, e);
      FirstIsLightest(edges, rev, s, f);
      WeightExchange(t, f, e);
      t' := t - {f} + {e};
    }
  }

  /** A spanning tree that contains what has grown so far is no lighter than the final tree. */
  lemma {:induction false} GrowMinimal(edges: seq<Edge>, rev: set<Key>, s: set<Name>, c: set<Edge>,
                                       v: set<Name>, t: set<Edge>)
    requires WeightSorted(edges)
    requires SpanningTree(c, s) && s <= v && Closed(TwoWay(edges, rev), v)
    requires SpanningTree(t, v) && c <= t <= TwoWay(edges, rev)
    ensures Weight(c + Elements(Grow(edges, rev, s))) <= Weight(t)
    decreases Pending(edges, s)
  {
    var k := First(edges, rev, s, 0);
    if k == |edges| {
      NothingLeft(edges, rev, s, c, v, t);
    } else {
      var e := edges[k];
      var s' := s + {e.from, e.to};
      ExtendTree(c, s, e);
      PendingShrinks(edges, s, k);
      var t' := ContainsLightest(edges, rev, s, c, v, t);
      GrowMinimal(edges, rev, s', c + {e}, v, t');
      assert c + {e} + Elements(Grow(edges, rev, s')) == c + Elements(Grow(edges, rev, s)) by {
        EndsOfCons(e, Grow(edges, rev, s'));
      }
    }
  }

  lemma SubsetSameSize(a: set<Edge>, b: set<Edge>)
    requires a <= b && |a| == |b|
    ensures a == b
  {
    assert b == a + (b - a);
    assert |b| == |a| + |b - a|;
  }

  /** mst_kruskal's tree spans exactly the component of its starting point, by two-way edges. */
  lemma GrowSpansComponent(edges: seq<Edge>, rev: set<Key>, start: Name)
    ensures var v := Component(TwoWay(edges, rev), start);
            var tree := Grow(edges, rev, {start});
            && Elements(tree) <= TwoWay(edges, rev)
            && {start} + EndsOf(tree) == v
            && SpanningTree(Elements(tree), v)
  {
    var b := TwoWay(edges, rev);
    var tree := Grow(edges, rev, {start});
    assert SpanningTree({}, {start}) by {
      forall d: set<Name> | d <= {start} && d != {}
        ensures d == {start}
      {
      }
    }
    GrowSpans(edges, rev, {start}, {});
    assert {} + Elements(tree) == Elements(tree);
    var w := {start} + EndsOf(tree);
    // everything visited is reachable: a closed set that holds the start holds all of it
    forall x | x in w
      ensures Reachable(b, start, x)
    {
      forall d: set<Name> | start in d && Closed(b, d)
        ensures x in d
      {
        assert Closed(Elements(tree), d * w);
        assert d * w == w;
      }
    }
    ComponentUnique(b, start, w);
  }

  /** No spanning tree of the component by two-way edges is lighter than mst_kruskal's. */
  lemma MinimumSpanningTree(edges: seq<Edge>, rev: set<Key>, start: Name, t: set<Edge>)
    requires WeightSorted(edges)
    requires t <= TwoWay(edges, rev) && SpanningTree(t, Component(TwoWay(edges, rev), start))
    ensures Weight(Elements(Grow(edges, rev, {start}))) <= Weight(t)
  {
    var v := Component(TwoWay(edges, rev), start);
    ComponentClosed(TwoWay(edges, rev), start);
    assert SpanningTree({}, {start}) by {
      forall d: set<Name> | d <= {start} && d != {}
        ensures d == {start}
      {
      }
    }
    GrowMinimal(edges, rev, {start}, {}, v, t);
    assert {} + Elements(Grow(edges, rev, {start})) == Elements(Grow(edges, rev, {start}));
  }
}
