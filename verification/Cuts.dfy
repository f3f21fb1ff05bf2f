/** Cuts, components and spanning trees of a set of two-way edges.

Connectivity is expressed through cuts: a set of nodes is closed under a set of
edges when no edge leaves it.  Closed sets form a Boolean algebra, which is what
makes the exchange argument for spanning trees short.
*/
module Cuts {
  import opened Names
  import opened Edges

  /** No edge of `es` has exactly one end in `s`. */
  ghost predicate Closed(es: set<Edge>, s: set<Name>) {
    forall e <- es :: e.from in s <==> e.to in s
  }

  /** The edge has exactly one end in `s`. */
  predicate Crosses(e: Edge, s: set<Name>) {
    (e.from in s) != (e.to in s)
  }

  ghost predicate Within(es: set<Edge>, v: set<Name>) {
    forall e <- es :: e.from in v && e.to in v
  }

  /** Every cut of `v` is crossed: `es` connects `v`. */
  ghost predicate Connects(es: set<Edge>, v: set<Name>) {
    forall s: set<Name> | s <= v && s != {} && Closed(es, s) :: s == v
  }

  /** Connected, inside `v`, and with no edge to spare. */
  ghost predicate SpanningTree(es: set<Edge>, v: set<Name>) {
    Within(es, v) && Connects(es, v) && |es| == |v| - 1
  }

  /** No closed set tells `x` and `y` apart. */
  ghost predicate Together(es: set<Edge>, v: set<Name>, x: Name, y: Name) {
    forall s: set<Name> | s <= v && Closed(es, s) :: x in s <==> y in s
  }

  /** `x` lies in every closed set that holds `root`: it is reachable from `root`. */
  ghost predicate Reachable(es: set<Edge>, root: Name, x: Name) {
    forall s: set<Name> | root in s && Closed(es, s) :: x in s
  }

  /** All ends of the edges, and `root`. */
  ghost function Ends(es: set<Edge>, root: Name): set<Name> {
    (set e <- es :: e.from) + (set e <- es :: e.to) + {root}
  }

  /** The nodes reachable from `root`. */
  ghost function Component(es: set<Edge>, root: Name): (c: set<Name>)
    ensures forall x :: x in c <==> Reachable(es, root, x)
  {
    assert Closed(es, Ends(es, root));
    set x | x in Ends(es, root) && Reachable(es, root, x)
  }

  lemma ComponentClosed(es: set<Edge>, root: Name)
    ensures root in Component(es, root)
    ensures Closed(es, Component(es, root))
  {
    forall e <- es
      ensures e.from in Component(es, root) <==> e.to in Component(es, root)
    {
      forall s: set<Name> | root in s && Closed(es, s)
        ensures e.from in s <==> e.to in s
      {
      }
      assert Reachable(es, root, e.from) <==> Reachable(es, root, e.to);
    }
  }

  /** A closed set that holds `root` and nothing unreachable is the component. */
  lemma ComponentUnique(es: set<Edge>, root: Name, s: set<Name>)
    requires root in s && Closed(es, s)
    requires forall x <- s :: Reachable(es, root, x)
    ensures s == Component(es, root)
  {
  }

  /** Reachability is symmetric: any member names the same component. */
  lemma ComponentSame(es: set<Edge>, r1: Name, r2: Name)
    requires r2 in Component(es, r1)
    ensures Component(es, r1) == Component(es, r2)
  {
    ComponentClosed(es, r1);
    ComponentClosed(es, r2);
    var c1, c2 := Component(es, r1), Component(es, r2);
    assert Closed(es, c1 - c2);
    assert r1 in c2;
    forall x | x in c1
      ensures Reachable(es, r2, x)
    {
      assert Closed(es, c2) && r1 in c2;
    }
    assert c1 <= c2 && c2 <= c1;
  }

  function SymDiff(a: set<Name>, b: set<Name>): set<Name> {
    (a - b) + (b - a)
  }

  lemma ClosedSymDiff(es: set<Edge>, a: set<Name>, b: set<Name>)
    requires Closed(es, a) && Closed(es, b)
    ensures Closed(es, SymDiff(a, b))
  {
  }

  /** If removing `f` separates the ends of `e`, then `e` can take the place of `f`. */
  lemma Replaces(h: set<Edge>, v: set<Name>, e: Edge, f: Edge, z: set<Name>, w: set<Name>)
    requires f in h
    requires Together(h, v, e.from, e.to)
    requires z <= v && Closed(h - {f}, z) && Crosses(e, z)
    requires w <= v && Closed(h - {f}, w) && !Crosses(e, w)
    ensures !Crosses(f, w)
  {
    var d := SymDiff(z, w);
    ClosedSymDiff(h - {f}, z, w);
    assert d <= v && Crosses(e, d);
    assert !Closed(h, z) && !Closed(h, d);
    assert Crosses(f, z) && Crosses(f, d);
  }

  /** Some edge among `cut` is the last one holding the ends of `e` together. */
  lemma {:induction false} LastBridge(h: set<Edge>, cut: set<Edge>, v: set<Name>, e: Edge)
    returns (g: set<Edge>, f: Edge, z: set<Name>)
    requires cut <= h
    requires Together(h, v, e.from, e.to)
    requires !Together(h - cut, v, e.from, e.to)
    ensures g <= h && f in g && f in cut
    ensures Together(g, v, e.from, e.to)
    ensures z <= v && Closed(g - {f}, z) && Crosses(e, z)
    decreases cut
  {
    assert cut == {} ==> h - cut == h;
    f :| f in cut;
    if Together(h - {f}, v, e.from, e.to) {
      assert h - {f} - (cut - {f}) == h - cut;
      g, f, z := LastBridge(h - {f}, cut - {f}, v, e);
    } else {
      g := h;
      z :| z <= v && Closed(h - {f}, z) && !(e.from in z <==> e.to in z);
    }
  }

  /** The exchange step: a spanning tree can trade one of its edges across the cut `s`
      for any other edge across that cut. */
  lemma Exchange(t: set<Edge>, v: set<Name>, s: set<Name>, e: Edge) returns (f: Edge)
    requires SpanningTree(t, v) && s <= v
    requires e !in t && e.from in v && e.to in v && Crosses(e, s)
    ensures f in t && Crosses(f, s)
    ensures SpanningTree(t - {f} + {e}, v)
  {
    var cut := set x | x in t && Crosses(x, s);
    assert Together(t, v, e.from, e.to) by {
      forall c: set<Name> | c <= v && Closed(t, c)
        ensures e.from in c <==> e.to in c
      {
        if c != {} {
          assert c == v;
        }
      }
    }
    assert Closed(t - cut, s);
    var g, z;
    g, f, z := LastBridge(t, cut, v, e);
    var t' := t - {f} + {e};
    forall c: set<Name> | c <= v && c != {} && Closed(t', c)
      ensures c == v
    {
      assert e in t';
      assert Closed(g - {f}, c);
      Replaces(g, v, e, f, z, c);
      assert Closed(t, c);
    }
  }
}
