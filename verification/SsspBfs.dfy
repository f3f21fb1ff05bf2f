/** The search itself, and what its routes mean. */
module SsspBfs {
  import opened Names
  import opened Edges
  import opened Cuts
  import opened Sssp

  /** The local two-way edges, their far ends, and whether any two-way edge is indirect. */
  ghost predicate View(net: Net, links: set<Edge>, near: set<Name>, flat: bool) {
    && net.Valid()
    && links == net.Links()
    && near == Neighbours(links, net.myself)
    && flat == net.NoIndirect()
  }

  ghost predicate EdgeOfNode(net: Net, links: set<Edge>, near: set<Name>, flat: bool, n: Name, e: Edge) {
    && e.from == n && e.to in net.adj && e.to != n
    && (e in links <==> KeyOf(e) in net.rev)
    && (e in links ==> (n == net.myself ==> e.to in near) && (flat ==> !e.Indirect()))
  }

  /** An edge of a node's tree. */
  lemma TreeEdge(net: Net, links: set<Edge>, near: set<Name>, flat: bool, n: Name, i: nat)
    requires View(net, links, near, flat) && n in net.adj && i < |net.adj[n]|
    ensures EdgeOfNode(net, links, near, flat, n, net.adj[n][i])
  {
    var e := net.adj[n][i];
    assert e.from == n && e.to in net.adj && e.to != n;
    assert e in links <==> KeyOf(e) in net.rev;
  }

  /** The two-way edges that leave a node are in its tree. */
  lemma LinkInTree(net: Net, links: set<Edge>, near: set<Name>, flat: bool, e: Edge)
    requires View(net, links, near, flat) && e in links
    ensures e.from in net.adj && e in net.adj[e.from]
  {
    var n :| n in net.adj && e in net.adj[n] && KeyOf(e) in net.rev;
    var i :| 0 <= i < |net.adj[n]| && net.adj[n][i] == e;
  }

  /** Leaving the head of the list once all of its edges have been examined. */
  lemma HeadDone(links: set<Edge>, near: set<Name>, myself: Name, flat: bool, r: Routes, todo: seq<Name>)
    requires todo != [] && Searching(links, near, myself, flat, r, todo)
    requires forall e | e in links && e.from == todo[0] :: Examined(r, e, flat)
    ensures Searching(links, near, myself, flat, r, todo[1..])
  {
    CoveredTail(links, r, todo, flat);
    if flat {
      LevelsTail(r, todo);
    }
  }

  lemma CoveredTail(links: set<Edge>, r: Routes, todo: seq<Name>, flat: bool)
    requires todo != [] && Covered(links, r, todo, flat)
    requires forall e | e in links && e.from == todo[0] :: Examined(r, e, flat)
    ensures Covered(links, r, todo[1..], flat)
  {
    forall e | e in links && e.from in r && e.from !in todo[1..]
      ensures Examined(r, e, flat)
    {
      assert e.from == todo[0] || e.from !in todo by {
        assert todo == [todo[0]] + todo[1..];
      }
    }
  }

  lemma LevelsTail(r: Routes, todo: seq<Name>)
    requires todo != [] && (forall x <- todo :: x in r) && Levels(r, todo)
    ensures forall x <- todo[1..] :: x in r
    ensures Levels(r, todo[1..])
  {
    if |todo| > 1 {
      assert r[todo[0]].distance <= r[todo[1]].distance;
    }
  }

  /** An edge that does not improve anything counts as examined. */
  lemma NoImprovement(links: set<Edge>, near: set<Name>, myself: Name, flat: bool, r: Routes, todo: seq<Name>, e: Edge)
    requires todo != [] && Searching(links, near, myself, flat, r, todo)
    requires e in links && e.from == todo[0]
    requires e.to == myself || !Improves(r, e)
    ensures Examined(r, e, flat)
  {
  }

  lemma Improvement(links: set<Edge>, near: set<Name>, myself: Name, flat: bool, r: Routes, todo: seq<Name>, e: Edge)
    requires todo != [] && Searching(links, near, myself, flat, r, todo)
    requires e in links && e.from == todo[0] && e.to != e.from && Improves(r, e)
    requires flat ==> !e.Indirect()
    ensures Examined(r[e.to := RouteVia(r, e, myself)], e, flat)
    ensures flat ==> (e.to !in r || Lighter(r, e)) && (e.to in r ==> !r[e.to].indirect)
  {
  }

  /** The first `k` edges of a node's tree have been examined, so far as they are two-way. */
  ghost predicate ExaminedUpTo(links: set<Edge>, r: Routes, es: seq<Edge>, k: nat, flat: bool)
    requires k <= |es|
  {
    forall j | 0 <= j < k && es[j] in links :: Examined(r, es[j], flat)
  }

  /** Taking an improving edge keeps what was examined before it. */
  lemma TakeEdge(nodes: set<Name>, links: set<Edge>, near: set<Name>, myself: Name, flat: bool,
                 r: Routes, todo: seq<Name>, es: seq<Edge>, k: nat)
    requires todo != [] && Searching(links, near, myself, flat, r, todo)
    requires k < |es| && es[k] in links && es[k].to in nodes && es[k].to != myself
    requires forall j | 0 <= j <= k :: es[j].from == todo[0] && es[j].to != todo[0]
    requires Improves(r, es[k]) && (flat ==> !es[k].Indirect())
    requires ExaminedUpTo(links, r, es, k, flat)
    ensures var r' := r[es[k].to := RouteVia(r, es[k], myself)];
            && ExaminedUpTo(links, r', es, k + 1, flat)
            && (flat ==> Less(nodes, links, r', r))
  {
    hide Searching, Less;
    var e := es[k];
    HeadVisited(links, near, myself, flat, r, todo);
    Improvement(links, near, myself, flat, r, todo, e);
    if flat {
      RelaxLess(nodes, links, r, e, myself);
    }
    forall j | 0 <= j < k && es[j] in links
      ensures Examined(r[e.to := RouteVia(r, e, myself)], es[j], flat)
    {
      RelaxExamined(r, e, myself, flat, es[j]);
    }
  }

  lemma HeadVisited(links: set<Edge>, near: set<Name>, myself: Name, flat: bool, r: Routes, todo: seq<Name>)
    requires todo != [] && Searching(links, near, myself, flat, r, todo)
    ensures todo[0] in r
  {
  }

  lemma LessTransitive(nodes: set<Name>, links: set<Edge>, r2: Routes, r1: Routes, r0: Routes)
    requires Less(nodes, links, r2, r1) && Less(nodes, links, r1, r0)
    ensures Less(nodes, links, r2, r0)
  {
  }

  /** How much can still improve: in a graph without indirect edges each improvement lowers it. */
  ghost function Rank(nodes: set<Name>, links: set<Edge>, r: Routes): nat {
    Measure(|Unvisited(nodes, r)|, |Lighters(links, r)|, |links|)
  }

  /** Pairs in lexicographic order, the second component being at most n. */
  ghost function Measure(u: nat, l: nat, n: nat): nat {
    u * (n + 1) + l
  }

  lemma MeasureLess(u': nat, l': nat, u: nat, l: nat, n: nat)
    requires l' <= n && (u' < u || (u' == u && l' < l))
    ensures Measure(u', l', n) < Measure(u, l, n)
  {
    if u' < u {
      MeasureStep(u', u, n + 1);
    }
  }

  lemma MeasureStep(a: nat, b: nat, n: nat)
    requires a < b
    ensures a * n + n <= b * n
  {
    var d := b - a - 1;
    assert b * n == (a + 1 + d) * n == a * n + n + d * n;
  }

  lemma SubsetSize<T>(a: set<T>, b: set<T>)
    requires a <= b
    ensures |a| <= |b| && (a < b ==> |a| < |b|)
  {
    var c := b - a;
    assert b == a + c && a !! c;
    if a < b {
      assert c != {};
    }
  }

  lemma LessRank(nodes: set<Name>, links: set<Edge>, r': Routes, r: Routes)
    requires Less(nodes, links, r', r)
    ensures Rank(nodes, links, r') < Rank(nodes, links, r)
  {
    SubsetSize(Lighters(links, r'), links);
    SubsetSize(Unvisited(nodes, r'), Unvisited(nodes, r));
    if Unvisited(nodes, r') == Unvisited(nodes, r) {
      SubsetSize(Lighters(links, r'), Lighters(links, r));
    }
    hide Unvisited, Lighters, Measure;
    MeasureLess(|Unvisited(nodes, r')|, |Lighters(links, r')|, |Unvisited(nodes, r)|, |Lighters(links, r)|, |links|);
  }

  lemma RankBound(nodes: set<Name>, links: set<Edge>, r: Routes)
    ensures Rank(nodes, links, r) <= Measure(|nodes|, |links|, |links|)
  {
    SubsetSize(Unvisited(nodes, r), nodes);
    SubsetSize(Lighters(links, r), links);
    hide Unvisited, Lighters;
    if |Unvisited(nodes, r)| < |nodes| {
      MeasureStep(|Unvisited(nodes, r)|, |nodes|, |links| + 1);
    }
  }

  /** What examining the given edges does to the routes and the list. */
  function Scanned(net: Net, r: Routes, todo: seq<Name>, es: seq<Edge>): (s: (Routes, seq<Name>))
    ensures |todo| <= |s.1|
    decreases |es|
  {
    if es == [] then (r, todo)
    else
      var e := es[0];
      if KeyOf(e) in net.rev && e.to != net.myself && e.from in r && Improves(r, e)
      then Scanned(net, r[e.to := RouteVia(r, e, net.myself)], todo + [e.to], es[1..])
      else Scanned(net, r, todo, es[1..])
  }

  /** One pass of the outer loop. */
  function Pass(net: Net, r: Routes, todo: seq<Name>): (Routes, seq<Name>)
    requires todo != [] && todo[0] in net.adj
  {
    var (r', todo') := Scanned(net, r, todo, net.adj[todo[0]]);
    (r', todo'[1..])
  }

  /** The search ends within so many passes. */
  ghost predicate Ends(net: Net, r: Routes, todo: seq<Name>, fuel: nat)
    decreases fuel
  {
    || todo == []
    || (fuel > 0 && todo[0] in net.adj && var (r', todo') := Pass(net, r, todo); Ends(net, r', todo', fuel - 1))
  }

  /** One pass of the outer loop: examine the edges of the node at the head of the list. */
  method ExamineNode(net: Net, r0: Routes, todo0: seq<Name>, ghost links: set<Edge>, ghost near: set<Name>,
                     ghost flat: bool)
    returns (r: Routes, todo: seq<Name>)
    requires View(net, links, near, flat)
    requires todo0 != [] && r0.Keys <= net.adj.Keys
    requires Searching(links, near, net.myself, flat, r0, todo0)
    ensures todo0[0] in net.adj && (r, todo) == Pass(net, r0, todo0)
    ensures r.Keys <= net.adj.Keys
    ensures Searching(links, near, net.myself, flat, r, todo)
    ensures (r == r0 && todo == todo0[1..]) || (flat ==> Less(net.adj.Keys, links, r, r0))
    ensures flat ==> Rank(net.adj.Keys, links, r) + |todo| < Rank(net.adj.Keys, links, r0) + |todo0|
  {
    hide Searching, Less, View, Rank;
    HeadVisited(links, near, net.myself, flat, r0, todo0);
    r, todo := r0, todo0;
    var n := todo[0];
    var es := net.adj[n];
    forall i | 0 <= i < |es|
      ensures EdgeOfNode(net, links, near, flat, n, es[i])
    {
      TreeEdge(net, links, near, flat, n, i);
    }
    var k := 0;
    assert es[0..] == es;
    while k < |es|
      invariant 0 <= k <= |es|
      invariant Scanned(net, r, todo, es[k..]) == Scanned(net, r0, todo0, es)
      invariant todo != [] && todo[0] == n && n in r && r.Keys <= net.adj.Keys
      invariant Searching(links, near, net.myself, flat, r, todo)
      invariant ExaminedUpTo(links, r, es, k, flat)
      invariant (r == r0 && todo == todo0) || (flat ==> Less(net.adj.Keys, links, r, r0))
      invariant flat ==> Rank(net.adj.Keys, links, r) + |todo| <= Rank(net.adj.Keys, links, r0) + |todo0|
    {
      var e := es[k];
      assert es[k..][1..] == es[k + 1..];
      assert EdgeOfNode(net, links, near, flat, n, e);
      if KeyOf(e) !in net.rev {
      } else if e.to == net.myself || !Improves(r, e) {
        NoImprovement(links, near, net.myself, flat, r, todo, e);
      } else {
        RelaxSearching(links, near, net.myself, flat, r, todo, e);
        TakeEdge(net.adj.Keys, links, near, net.myself, flat, r, todo, es, k);
        ghost var before := r;
        r, todo := r[e.to := RouteVia(r, e, net.myself)], todo + [e.to];
        if flat {
          LessRank(net.adj.Keys, links, r, before);
        }
        if flat && before != r0 {
          LessTransitive(net.adj.Keys, links, r, before, r0);
        }
      }
      k := k + 1;
    }
    forall e | e in links && e.from == n
      ensures Examined(r, e, flat)
    {
      LinkInTree(net, links, near, flat, e);
    }
    HeadDone(links, near, net.myself, flat, r, todo);
    todo := todo[1..];
  }

  /** What every finished search guarantees, whatever the edge options are: the visited nodes
      are exactly the reachable ones, each entered through a two-way edge from a visited node,
      and each next hop is a neighbour. */
  ghost predicate RoutesOk(net: Net, r: Routes) {
    && r.Keys == Component(net.Links(), net.myself)
    && Sound(net.Links(), Neighbours(net.Links(), net.myself), net.myself, r)
  }

  ghost predicate Adjacent(links: set<Edge>, a: Name, b: Name) {
    exists e :: e in links && e.from == a && e.to == b
  }

  /** A path along two-way edges. */
  ghost predicate Walk(links: set<Edge>, p: seq<Name>) {
    p != [] && (|p| > 1 ==> Walk(links, p[..|p| - 1]) && Adjacent(links, p[|p| - 2], p[|p| - 1]))
  }

  /** The first node after the local one on the chain of previous edges. */
  ghost function FirstHop(myself: Name, r: Routes, x: Name): Name
    requires x in r
    decreases r[x].distance
  {
    if x != myself && r[x].prev.Some? && r[x].prev.value.from in r
       && r[r[x].prev.value.from].distance < r[x].distance then
      var p := r[x].prev.value.from;
      if p == myself then x else FirstHop(myself, r, p)
    else x
  }

  /** The far end of `e` was entered from the level of e.from, through an edge no heavier than `e`. */
  ghost predicate IsLightestPrev(r: Routes, e: Edge)
    requires e.from in r && e.to in r
  {
    && r[e.to].prev.Some? && r[e.to].prev.value.from in r
    && r[r[e.to].prev.value.from].distance == r[e.from].distance
    && r[e.to].prev.value.weight <= e.weight
  }

  /** The distance is the least number of hops, the previous edge is a lightest one from the
      previous level, and the next hop is the first hop of the chain of previous edges. */
  ghost predicate ShortestRoutes(links: set<Edge>, myself: Name, r: Routes) {
    && (forall p | Walk(links, p) && p[0] == myself :: p[|p| - 1] in r && r[p[|p| - 1]].distance <= |p| - 1)
    && (forall x <- r.Keys :: exists p ::
          Walk(links, p) && p[0] == myself && p[|p| - 1] == x && |p| - 1 == r[x].distance)
    && (forall e | e in links && e.from in r && e.to in r && r[e.to].distance == r[e.from].distance + 1 ::
          IsLightestPrev(r, e))
    && (forall x | x in r && x != myself :: r[x].nexthop == FirstHop(myself, r, x))
  }

  /** With nothing left on the list no two-way edge leaves the visited set. */
  lemma VisitedClosed(links: set<Edge>, r: Routes, flat: bool)
    requires Covered(links, r, [], flat)
    requires forall e {:trigger HasTwin(links, e)} | e in links :: HasTwin(links, e)
    ensures Closed(links, r.Keys)
  {
    forall e | e in links
      ensures e.from in r <==> e.to in r
    {
      assert e.from in r ==> Examined(r, e, flat);
      assert HasTwin(links, e);
      var e' :| e' in links && KeyOf(e') == Flip(KeyOf(e));
      assert e'.from in r ==> Examined(r, e', flat);
    }
  }

  lemma VisitedIsComponent(net: Net, links: set<Edge>, near: set<Name>, flat: bool, r: Routes)
    requires View(net, links, near, flat) && net.Symmetric()
    requires Searching(links, near, net.myself, flat, r, [])
    ensures RoutesOk(net, r)
  {
    hide Closed, Covered;
    VisitedClosed(links, r, flat);
    ComponentUnique(links, net.myself, r.Keys);
  }

  lemma {:induction false} WalkBound(links: set<Edge>, myself: Name, r: Routes, p: seq<Name>)
    requires myself in r && r[myself].distance == 0
    requires forall e | e in links && e.from in r :: Examined(r, e, true)
    requires Walk(links, p) && p[0] == myself
    ensures p[|p| - 1] in r && r[p[|p| - 1]].distance <= |p| - 1
    decreases |p|
  {
    if |p| > 1 {
      WalkBound(links, myself, r, p[..|p| - 1]);
      var e :| e in links && e.from == p[|p| - 2] && e.to == p[|p| - 1];
      assert Examined(r, e, true);
    }
  }

  lemma {:induction false} WalkAlong(links: set<Edge>, myself: Name, r: Routes, x: Name) returns (p: seq<Name>)
    requires myself in r && r[myself].distance == 0
    requires PrevsOk(links, myself, r) && Chained(myself, r) && x in r
    ensures Walk(links, p) && p[0] == myself && p[|p| - 1] == x && |p| - 1 == r[x].distance
    decreases r[x].distance
  {
    if x == myself {
      p := [x];
    } else {
      var e := r[x].prev.value;
      var q := WalkAlong(links, myself, r, e.from);
      p := q + [x];
      assert p[..|p| - 1] == q;
    }
  }

  lemma {:induction false} NextHopIsFirstHop(links: set<Edge>, near: set<Name>, myself: Name, r: Routes, x: Name)
    requires Sound(links, near, myself, r) && Chained(myself, r) && x in r && x != myself
    ensures r[x].nexthop == FirstHop(myself, r, x)
    decreases r[x].distance
  {
    var p := r[x].prev.value.from;
    if p != myself {
      NextHopIsFirstHop(links, near, myself, r, p);
    }
  }

  lemma RoutesAreShortest(links: set<Edge>, near: set<Name>, myself: Name, r: Routes)
    requires Searching(links, near, myself, true, r, [])
    ensures ShortestRoutes(links, myself, r)
  {
    forall p | Walk(links, p) && p[0] == myself
      ensures p[|p| - 1] in r && r[p[|p| - 1]].distance <= |p| - 1
    {
      WalkBound(links, myself, r, p);
    }
    forall x <- r.Keys
      ensures exists p :: Walk(links, p) && p[0] == myself && p[|p| - 1] == x && |p| - 1 == r[x].distance
    {
      var p := WalkAlong(links, myself, r, x);
    }
    forall e | e in links && e.from in r && e.to in r && r[e.to].distance == r[e.from].distance + 1
      ensures IsLightestPrev(r, e)
    {
      assert Examined(r, e, true);
    }
    forall x | x in r && x != myself
      ensures r[x].nexthop == FirstHop(myself, r, x)
    {
      NextHopIsFirstHop(links, near, myself, r, x);
    }
  }

  /** sssp_bfs in a graph without indirect edges: it returns, with shortest routes. */
  method SsspBfs(net: Net) returns (r: Routes)
    requires net.Valid() && net.Symmetric() && net.NoIndirect()
    ensures RoutesOk(net, r)
    ensures ShortestRoutes(net.Links(), net.myself, r)
  {
    ghost var links := net.Links();
    ghost var near := Neighbours(links, net.myself);
    var todo := [net.myself];
    r := InitialRoutes(net.myself);
    InitialSound(links, near, net.myself);
    InitialCovered(links, net.myself, true);
    while todo != []
      invariant r.Keys <= net.adj.Keys
      invariant Searching(links, near, net.myself, true, r, todo)
      decreases Unvisited(net.adj.Keys, r), Lighters(links, r), |todo|
    {
      hide Searching;
      r, todo := ExamineNode(net, r, todo, links, near, true);
    }
    VisitedIsComponent(net, links, near, true, r);
    RoutesAreShortest(links, near, net.myself, r);
  }

  /** Enough passes for a graph without indirect edges. */
  ghost function Enough(nodes: nat, links: nat): nat {
    Measure(nodes, links, links) + 1
  }

  lemma EnoughGrows(nodes: nat, links: nat, nodes': nat, links': nat)
    requires nodes <= nodes' && links <= links'
    ensures Enough(nodes, links) <= Enough(nodes', links')
  {
    calc {
      nodes * (links + 1);
    <= { MulGrows(nodes, nodes', links + 1); }
      nodes' * (links + 1);
    <= { MulGrows(links + 1, links' + 1, nodes'); }
      nodes' * (links' + 1);
    }
  }

  lemma MulGrows(a: nat, b: nat, n: nat)
    requires a <= b
    ensures a * n <= b * n
  {
  }

  lemma Begins(net: Net, links: set<Edge>, near: set<Name>, flat: bool)
    requires net.Valid() && links == net.Links() && near == Neighbours(links, net.myself) && flat == net.NoIndirect()
    ensures var r := InitialRoutes(net.myself);
            View(net, links, near, flat) && r.Keys <= net.adj.Keys
              && Searching(links, near, net.myself, flat, r, [net.myself])
  {
    InitialSound(links, near, net.myself);
    InitialCovered(links, net.myself, flat);
  }

  /** sssp_bfs with any edge options, for as many passes as `fuel` allows. */
  method SsspBfsWithin(net: Net, fuel: nat) returns (finished: bool, r: Routes)
    requires net.Valid() && net.Symmetric()
    ensures finished ==> RoutesOk(net, r)
    ensures finished <==> Ends(net, InitialRoutes(net.myself), [net.myself], fuel)
    ensures net.NoIndirect() && fuel >= Enough(|net.adj.Keys|, |net.Links()|) ==> finished
  {
    hide Rank, Measure, Pass, Searching, Less, View, RoutesOk, Net.NoIndirect, Net.Symmetric, Net.Links;
    ghost var links := net.Links();
    ghost var near := Neighbours(links, net.myself);
    ghost var flat := net.NoIndirect();
    var todo, left := [net.myself], fuel;
    r := InitialRoutes(net.myself);
    Begins(net, links, near, flat);
    RankBound(net.adj.Keys, links, r);
    ghost var nodes := net.adj.Keys;
    while todo != [] && left > 0
      invariant r.Keys <= nodes
      invariant Ends(net, InitialRoutes(net.myself), [net.myself], fuel) == Ends(net, r, todo, left)
      invariant Searching(links, near, net.myself, flat, r, todo)
      invariant flat && fuel >= Enough(|nodes|, |links|) ==> Rank(nodes, links, r) + |todo| <= left
      decreases left
    {
      r, todo := ExamineNode(net, r, todo, links, near, flat);
      left := left - 1;
    }
    finished := todo == [];
    if finished {
      VisitedIsComponent(net, links, near, flat, r);
    }
  }
}
