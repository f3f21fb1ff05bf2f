/** Routes: the re-enqueueing breadth-first search sssp_bfs of src/graph.c.

A node is visited exactly when it has a route; the search starts at the local
node and keeps a list of nodes whose edges are still to be examined.  A node is
put back on the list whenever its route changes.
*/
module Sssp {
  import opened Names
  import opened Edges
  import opened Common
  import opened Cuts

  /** What the search records about a visited node. */
  datatype RouteRecord = Route(distance: nat, indirect: bool, nexthop: Name, via: Name, prev: Option<Edge>)

  /** Only a node at distance 0 has no previous edge. */
  type Route = r: RouteRecord | r.distance > 0 ==> r.prev.Some? witness Route(0, false, Name([]), Name([]), None)

  type Routes = map<Name, Route>

  /** The set has an edge the other way. */
  ghost predicate HasTwin(links: set<Edge>, e: Edge) {
    exists e' :: e' in links && KeyOf(e') == Flip(KeyOf(e))
  }

  /** The per-node edge trees, the edges that have a reverse, and the local node. */
  datatype Net = Net(adj: map<Name, seq<Edge>>, rev: set<Key>, myself: Name)
  {
    ghost predicate Valid() {
      && myself in adj
      && (forall n, i | n in adj && 0 <= i < |adj[n]| ::
            var e := adj[n][i]; e.from == n && e.to in adj && e.to != n)
    }

    /** The edges that have a reverse. */
    ghost function Links(): set<Edge> {
      set n, e | n in adj && e in adj[n] && KeyOf(e) in rev :: e
    }

    /** Every edge with a reverse is matched by one the other way. */
    ghost predicate Symmetric() {
      forall e {:trigger HasTwin(Links(), e)} | e in Links() :: HasTwin(Links(), e)
    }

    ghost predicate NoIndirect() {
      forall e <- Links() :: !e.Indirect()
    }
  }

  /** Whether going to e.to through `e` after `n` counts as indirect. */
  predicate IndirectVia(r: Routes, e: Edge)
    requires e.from in r
  {
    r[e.from].indirect || e.Indirect()
  }

  /** A lighter last edge at the same distance. */
  predicate Lighter(r: Routes, e: Edge)
    requires e.from in r && e.to in r
  {
    r[e.to].distance == r[e.from].distance + 1 && e.weight < r[e.to].prev.value.weight
  }

  /** The edge gives its far end a better route. */
  predicate Improves(r: Routes, e: Edge)
    requires e.from in r
  {
    e.to !in r || (r[e.to].indirect && !IndirectVia(r, e)) || Lighter(r, e)
  }

  /** The route of e.to through `e`; the next hop changes only if the path does not get longer. */
  function RouteVia(r: Routes, e: Edge, myself: Name): Route
    requires e.from in r
  {
    var n := r[e.from];
    var indirect := IndirectVia(r, e);
    var nexthop := if e.to !in r || Lighter(r, e)
                   then (if n.nexthop == myself then e.to else n.nexthop)
                   else r[e.to].nexthop;
    Route(n.distance + 1, indirect, nexthop, if indirect then n.via else e.to, Some(e))
  }

  function InitialRoutes(myself: Name): Routes {
    map[myself := Route(0, false, myself, myself, None)]
  }

  /** The nodes a two-way edge leads to straight from the local node. */
  ghost function Neighbours(links: set<Edge>, myself: Name): set<Name> {
    set e | e in links && e.from == myself :: e.to
  }

  /** The via node is visited, and is the node itself when it is reached directly. */
  ghost predicate ViasOk(r: Routes) {
    forall x <- r.Keys :: r[x].via in r && (!r[x].indirect ==> r[x].via == x)
  }

  /** Every visited node but the local one was entered through a two-way edge from a visited node. */
  ghost predicate PrevsOk(links: set<Edge>, myself: Name, r: Routes) {
    forall x | x in r && x != myself ::
      && r[x].prev.Some?
      && r[x].prev.value in links && r[x].prev.value.to == x && r[x].prev.value.from in r
  }

  /** The next hop of every other node is a neighbour of the local one. */
  ghost predicate NextHopsOk(near: set<Name>, myself: Name, r: Routes) {
    forall x | x in r && x != myself :: r[x].nexthop != myself && r[x].nexthop in near
  }

  /** A walk over two-way edges from the local node to x. */
  ghost predicate IsWalk(links: set<Edge>, myself: Name, x: Name, w: seq<Edge>) {
    && (forall i | 0 <= i < |w| :: w[i] in links)
    && (if w == [] then x == myself else w[0].from == myself && w[|w| - 1].to == x)
    && (forall i | 0 < i < |w| :: w[i].from == w[i - 1].to)
  }

  /** The first k edges are direct, and the next one, if there is one, is not. */
  ghost predicate DirectFor(w: seq<Edge>, k: nat) {
    k <= |w| && (forall i | 0 <= i < k :: !w[i].Indirect()) && (k < |w| ==> w[k].Indirect())
  }

  /** Where the first k edges of a walk end. */
  ghost function EndOf(myself: Name, w: seq<Edge>, k: nat): Name
    requires k <= |w|
  {
    if k == 0 then myself else w[k - 1].to
  }

  /** The route was found along w: it is as long, has the last edge as its previous one, is indirect
      exactly if some edge is, and its via node is the last one reached without an indirect edge. */
  ghost predicate Follows(links: set<Edge>, myself: Name, x: Name, route: Route, w: seq<Edge>) {
    && IsWalk(links, myself, x, w) && route.distance == |w|
    && route.prev == (if w == [] then None else Some(w[|w| - 1]))
    && (route.indirect <==> exists e <- w :: e.Indirect())
    && exists k: nat :: DirectFor(w, k) && route.via == EndOf(myself, w, k)
  }

  /** The next hop is the first hop of some walk. */
  ghost predicate Hops(links: set<Edge>, myself: Name, x: Name, hop: Name, w: seq<Edge>) {
    IsWalk(links, myself, x, w) && hop == if w == [] then myself else w[0].to
  }

  /** The route was found along a walk, and its next hop leads to the node. */
  ghost predicate RouteOk(links: set<Edge>, myself: Name, x: Name, route: Route) {
    && (exists w :: Follows(links, myself, x, route, w))
    && (exists w :: Hops(links, myself, x, route.nexthop, w))
  }

  ghost predicate WalksOk(links: set<Edge>, myself: Name, r: Routes) {
    forall x {:trigger RouteOk(links, myself, x, r[x])} | x in r :: RouteOk(links, myself, x, r[x])
  }

  /** Facts about all routes found so far, whatever the edge options are. */
  ghost predicate Sound(links: set<Edge>, near: set<Name>, myself: Name, r: Routes) {
    && myself in r && r[myself] == Route(0, false, myself, myself, None)
    && ViasOk(r) && PrevsOk(links, myself, r) && NextHopsOk(near, myself, r) && WalksOk(links, myself, r)
  }

  /** Every visited node is reachable. */
  ghost predicate AllReachable(links: set<Edge>, myself: Name, r: Routes) {
    forall x <- r.Keys :: Reachable(links, myself, x)
  }

  /** The edge has been examined: its far end is visited and, in a graph without indirect
      edges, is at most one level further and not entered through a heavier edge. */
  ghost predicate Examined(r: Routes, e: Edge, flat: bool) {
    && e.from in r && e.to in r
    && (flat ==> r[e.to].distance <= r[e.from].distance + 1 && !Lighter(r, e))
  }

  /** All two-way edges out of visited nodes that are not on the list have been examined. */
  ghost predicate Covered(links: set<Edge>, r: Routes, todo: seq<Name>, flat: bool) {
    && (forall x <- todo :: x in r)
    && (forall e | e in links && e.from in r && e.from !in todo :: Examined(r, e, flat))
  }

  /** The next hop that a node takes over from the node before it. */
  function HopAfter(r: Routes, p: Name, x: Name, myself: Name): Name
    requires p in r
  {
    if r[p].nexthop == myself then x else r[p].nexthop
  }

  /** Distances grow by one along the prevedge chain, and the chain agrees on the next hop. */
  ghost predicate Chained(myself: Name, r: Routes) {
    forall x | x in r && x != myself && r[x].prev.Some? && r[x].prev.value.from in r ::
      var p := r[x].prev.value.from;
      r[x].distance == r[p].distance + 1 && r[x].nexthop == HopAfter(r, p, x, myself)
  }

  /** The list holds nodes of one level, then of the next, and nothing visited lies further out. */
  ghost predicate Levels(r: Routes, todo: seq<Name>)
    requires forall x <- todo :: x in r
  {
    && (forall i, j | 0 <= i < j < |todo| :: r[todo[i]].distance <= r[todo[j]].distance)
    && (todo != [] ==> forall x <- r.Keys :: r[x].distance <= r[todo[0]].distance + 1)
  }

  /** What also holds when no two-way edge is indirect. */
  ghost predicate Flat(myself: Name, r: Routes, todo: seq<Name>)
    requires forall x <- todo :: x in r
  {
    && (forall x <- r.Keys :: !r[x].indirect)
    && Chained(myself, r) && Levels(r, todo)
  }

  lemma InitialSound(links: set<Edge>, near: set<Name>, myself: Name)
    ensures Sound(links, near, myself, InitialRoutes(myself))
  {
    var r := InitialRoutes(myself);
    assert r.Keys == {myself};
    assert ViasOk(r);
    assert PrevsOk(links, myself, r) && NextHopsOk(near, myself, r);
    InitialWalks(links, myself);
  }

  lemma InitialWalks(links: set<Edge>, myself: Name)
    ensures WalksOk(links, myself, InitialRoutes(myself))
  {
    var r := InitialRoutes(myself);
    assert r.Keys == {myself};
    assert DirectFor([], 0) && EndOf(myself, [], 0) == myself;
    assert Follows(links, myself, myself, r[myself], []) && Hops(links, myself, myself, myself, []);
    assert RouteOk(links, myself, myself, r[myself]);
  }

  lemma InitialCovered(links: set<Edge>, myself: Name, flat: bool)
    ensures AllReachable(links, myself, InitialRoutes(myself))
    ensures Covered(links, InitialRoutes(myself), [myself], flat)
    ensures Flat(myself, InitialRoutes(myself), [myself])
  {
    assert InitialRoutes(myself).Keys == {myself};
  }

  lemma RelaxVias(r: Routes, e: Edge, myself: Name)
    requires ViasOk(r) && e.from in r
    ensures ViasOk(r[e.to := RouteVia(r, e, myself)])
  {
  }

  lemma RelaxPrevs(links: set<Edge>, myself: Name, r: Routes, e: Edge)
    requires PrevsOk(links, myself, r) && e in links && e.from in r
    ensures PrevsOk(links, myself, r[e.to := RouteVia(r, e, myself)])
  {
  }

  lemma RelaxNextHops(near: set<Name>, myself: Name, r: Routes, e: Edge)
    requires NextHopsOk(near, myself, r) && e.from in r && e.to != myself
    requires e.from == myself ==> e.to in near && r[myself].nexthop == myself
    ensures NextHopsOk(near, myself, r[e.to := RouteVia(r, e, myself)])
  {
  }

  /** A walk to one end of an edge goes on to the other. */
  lemma WalkOn(links: set<Edge>, myself: Name, e: Edge, w: seq<Edge>)
    requires IsWalk(links, myself, e.from, w) && e in links
    ensures IsWalk(links, myself, e.to, w + [e])
  {
    var v := w + [e];
    assert forall i | 0 <= i < |w| :: v[i] == w[i];
  }

  lemma DirectOn(w: seq<Edge>, k: nat, e: Edge)
    requires DirectFor(w, k)
    ensures k < |w| || e.Indirect() ==> DirectFor(w + [e], k)
    ensures k == |w| && !e.Indirect() ==> DirectFor(w + [e], k + 1)
    ensures k == |w| <==> forall f <- w :: !f.Indirect()
  {
    var v := w + [e];
    assert forall i | 0 <= i < |w| :: v[i] == w[i];
    if k < |w| {
      assert w[k] in w;
    }
  }

  /** The route through an edge follows the walk to its near end and then the edge. */
  lemma FollowsOn(links: set<Edge>, myself: Name, r: Routes, e: Edge, w: seq<Edge>)
    requires e in links && e.from in r && Follows(links, myself, e.from, r[e.from], w)
    ensures Follows(links, myself, e.to, RouteVia(r, e, myself), w + [e])
  {
    var v, route := w + [e], RouteVia(r, e, myself);
    WalkOn(links, myself, e, w);
    var k: nat :| DirectFor(w, k) && r[e.from].via == EndOf(myself, w, k);
    DirectOn(w, k, e);
    assert v[|w|] == e && forall f <- w :: f in v;
    if route.indirect {
      assert DirectFor(v, k) && EndOf(myself, v, k) == EndOf(myself, w, k);
    } else {
      assert DirectFor(v, k + 1) && EndOf(myself, v, k + 1) == e.to;
    }
  }

  lemma HopsOn(links: set<Edge>, myself: Name, r: Routes, e: Edge, w: seq<Edge>)
    requires e in links && e.from in r && Hops(links, myself, e.from, r[e.from].nexthop, w)
    requires e.from == myself ==> r[e.from].nexthop == myself
    requires e.from != myself ==> r[e.from].nexthop != myself
    ensures Hops(links, myself, e.to, if r[e.from].nexthop == myself then e.to else r[e.from].nexthop,
                 if e.from == myself then [e] else w + [e])
  {
    WalkOn(links, myself, e, w);
  }

  /** The next hop of a visited node changes only if its path does not get longer, nor shorter. */
  lemma HopKept(r: Routes, e: Edge, myself: Name)
    requires e.from in r && e.to in r && Improves(r, e)
    ensures RouteVia(r, e, myself).nexthop != r[e.to].nexthop ==> RouteVia(r, e, myself).distance == r[e.to].distance
  {
  }

  lemma RelaxWalks(links: set<Edge>, myself: Name, r: Routes, e: Edge)
    requires WalksOk(links, myself, r) && e in links && e.from in r
    requires myself in r && r[myself].nexthop == myself && (forall x | x in r && x != myself :: r[x].nexthop != myself)
    ensures WalksOk(links, myself, r[e.to := RouteVia(r, e, myself)])
  {
    hide Follows, Hops, RouteVia, RouteOk;
    assert RouteOk(links, myself, e.from, r[e.from]);
    assert e.to in r ==> RouteOk(links, myself, e.to, r[e.to]);
    RouteOn(links, myself, r, e);
    var r' := r[e.to := RouteVia(r, e, myself)];
    forall x | x in r'
      ensures RouteOk(links, myself, x, r'[x])
    {
      if x != e.to {
        assert RouteOk(links, myself, x, r[x]);
      }
    }
  }

  lemma RouteOn(links: set<Edge>, myself: Name, r: Routes, e: Edge)
    requires e in links && e.from in r && RouteOk(links, myself, e.from, r[e.from])
    requires e.to in r ==> RouteOk(links, myself, e.to, r[e.to])
    requires e.from == myself <==> r[e.from].nexthop == myself
    ensures RouteOk(links, myself, e.to, RouteVia(r, e, myself))
  {
    hide Follows, Hops;
    var w :| Follows(links, myself, e.from, r[e.from], w);
    FollowsOn(links, myself, r, e, w);
    var u :| Hops(links, myself, e.from, r[e.from].nexthop, u);
    HopsOn(links, myself, r, e, u);
  }

  /** Taking an edge keeps all routes sound. */
  lemma RelaxSound(links: set<Edge>, near: set<Name>, myself: Name, r: Routes, e: Edge)
    requires Sound(links, near, myself, r) && (e.from == myself ==> e.to in near)
    requires e in links && e.from in r && e.to != myself
    ensures Sound(links, near, myself, r[e.to := RouteVia(r, e, myself)])
  {
    RelaxVias(r, e, myself);
    RelaxPrevs(links, myself, r, e);
    RelaxNextHops(near, myself, r, e);
    RelaxWalks(links, myself, r, e);
  }

  lemma RelaxReachable(links: set<Edge>, myself: Name, r: Routes, e: Edge, route: Route)
    requires AllReachable(links, myself, r) && e in links && e.from in r
    ensures AllReachable(links, myself, r[e.to := route])
  {
    assert Reachable(links, myself, e.from);
  }

  /** A better route for e.to does not undo what has been examined. */
  lemma RelaxExamined(r: Routes, e: Edge, myself: Name, flat: bool, f: Edge)
    requires e.from in r && Improves(r, e) && e.to != e.from
    requires flat ==> e.to in r ==> !r[e.to].indirect
    requires Examined(r, f, flat) && (flat ==> f.from != e.to)
    ensures Examined(r[e.to := RouteVia(r, e, myself)], f, flat)
  {
  }

  lemma RelaxCovered(links: set<Edge>, r: Routes, todo: seq<Name>, e: Edge, myself: Name, flat: bool)
    requires Covered(links, r, todo, flat)
    requires e.from in r && Improves(r, e) && e.to != e.from
    requires flat ==> e.to in r ==> !r[e.to].indirect
    ensures Covered(links, r[e.to := RouteVia(r, e, myself)], todo + [e.to], flat)
  {
    var r', todo' := r[e.to := RouteVia(r, e, myself)], todo + [e.to];
    assert todo'[|todo|] == e.to;
    assert forall i | 0 <= i < |todo| :: todo[i] == todo'[i];
    forall f | f in links && f.from in r' && f.from !in todo'
      ensures Examined(r', f, flat)
    {
      RelaxExamined(r, e, myself, flat, f);
    }
  }

  lemma RelaxLevels(r: Routes, todo: seq<Name>, e: Edge, myself: Name)
    requires (forall x <- todo :: x in r) && Levels(r, todo)
    requires todo != [] && e.from == todo[0] && e.to != e.from
    requires e.to !in r || Lighter(r, e)
    ensures forall x <- todo + [e.to] :: x in r[e.to := RouteVia(r, e, myself)]
    ensures Levels(r[e.to := RouteVia(r, e, myself)], todo + [e.to])
  {
    var r', todo' := r[e.to := RouteVia(r, e, myself)], todo + [e.to];
    forall i | 0 <= i < |todo|
      ensures r'[todo'[i]].distance == r[todo[i]].distance
    {
      assert todo[i] in r;
    }
  }

  lemma RelaxChained(links: set<Edge>, r: Routes, todo: seq<Name>, e: Edge, myself: Name)
    requires (forall x <- todo :: x in r) && Levels(r, todo) && Chained(myself, r)
    requires PrevsOk(links, myself, r)
    requires todo != [] && e.from == todo[0] && e.to != e.from
    requires e.to !in r || Lighter(r, e)
    ensures Chained(myself, r[e.to := RouteVia(r, e, myself)])
  {
    var r' := r[e.to := RouteVia(r, e, myself)];
    forall x | x in r' && x != myself && r'[x].prev.Some? && r'[x].prev.value.from in r'
      ensures var p := r'[x].prev.value.from;
              r'[x].distance == r'[p].distance + 1 && r'[x].nexthop == HopAfter(r', p, x, myself)
    {
      if x != e.to {
        assert r[x].prev.value.from in r;
        assert r[x].prev.value.from != e.to;
      }
    }
  }

  /** One improving edge, in a graph without indirect edges. */
  lemma RelaxFlat(links: set<Edge>, r: Routes, todo: seq<Name>, e: Edge, myself: Name)
    requires (forall x <- todo :: x in r) && Flat(myself, r, todo) && PrevsOk(links, myself, r)
    requires todo != [] && e.from == todo[0] && e.to != e.from
    requires !e.Indirect() && Improves(r, e)
    ensures forall x <- todo + [e.to] :: x in r[e.to := RouteVia(r, e, myself)]
    ensures Flat(myself, r[e.to := RouteVia(r, e, myself)], todo + [e.to])
  {
    RelaxLevels(r, todo, e, myself);
    RelaxChained(links, r, todo, e, myself);
  }

  /** The loop invariant of the search. */
  ghost predicate Searching(links: set<Edge>, near: set<Name>, myself: Name, flat: bool, r: Routes, todo: seq<Name>) {
    && Sound(links, near, myself, r)
    && AllReachable(links, myself, r)
    && Covered(links, r, todo, flat)
    && (flat ==> Flat(myself, r, todo))
  }

  /** Taking an improving edge of the node at the head of the list. */
  lemma RelaxSearching(links: set<Edge>, near: set<Name>, myself: Name, flat: bool, r: Routes, todo: seq<Name>, e: Edge)
    requires Searching(links, near, myself, flat, r, todo)
    requires todo != [] && e in links && e.from == todo[0] && e.to != myself && e.to != e.from
    requires e.from == myself ==> e.to in near
    requires flat ==> !e.Indirect()
    requires Improves(r, e)
    ensures Searching(links, near, myself, flat, r[e.to := RouteVia(r, e, myself)], todo + [e.to])
  {
    RelaxSound(links, near, myself, r, e);
    RelaxReachable(links, myself, r, e, RouteVia(r, e, myself));
    RelaxCovered(links, r, todo, e, myself, flat);
    if flat {
      RelaxFlat(links, r, todo, e, myself);
    }
  }

  /** Nodes without a route yet. */
  ghost function Unvisited(nodes: set<Name>, r: Routes): set<Name> {
    nodes - r.Keys
  }

  /** Two-way edges that are lighter than the edge their far end was entered through. */
  ghost function Lighters(links: set<Edge>, r: Routes): set<Edge> {
    set e | e in links && e.to in r && r[e.to].prev.Some? && e.weight < r[e.to].prev.value.weight
  }

  /** Progress in a graph without indirect edges. */
  ghost predicate Less(nodes: set<Name>, links: set<Edge>, r': Routes, r: Routes) {
    || Unvisited(nodes, r') < Unvisited(nodes, r)
    || (Unvisited(nodes, r') == Unvisited(nodes, r) && Lighters(links, r') < Lighters(links, r))
  }

  lemma RelaxLess(nodes: set<Name>, links: set<Edge>, r: Routes, e: Edge, myself: Name)
    requires e in links && e.from in r && e.to in nodes
    requires e.to !in r || Lighter(r, e)
    ensures Less(nodes, links, r[e.to := RouteVia(r, e, myself)], r)
  {
    var r' := r[e.to := RouteVia(r, e, myself)];
    if e.to !in r {
      assert e.to in Unvisited(nodes, r) && e.to !in Unvisited(nodes, r');
    } else {
      assert r'.Keys == r.Keys;
      assert e in Lighters(links, r) && e !in Lighters(links, r');
    }
  }
}
