/** Broadcasts over the network: broadcast_packet of src/net_packet.c at every daemon. */
module Broadcast {
  import opened Names
  import opened Edges
  import opened Cuts
  import opened Mst
  import MstOptimal
  import opened Sssp
  import SsspBfs
  import Flooding

  /** An entry of the connection list: its node, and whether it has been given an edge. */
  datatype Conn = Conn(id: nat, node: Name, edge: bool)

  datatype Mode = NoBroadcast | MstMode

  /** What a daemon holds once graph() has run: its edge trees and routes, the connections of
      its own edges, the connection list, and which connections are on the broadcast tree. */
  datatype Daemon = Daemon(net: Net, routes: Routes, connOf: map<Key, nat>, conns: seq<Conn>, mst: set<nat>)

  /** The connection of the next hop towards the sender, if there is one. */
  function Upstream(d: Daemon, from: Name): set<nat>
    requires from in d.routes
  {
    ConnectionOf((d.net.myself, d.routes[from].nexthop), d.connOf)
  }

  /** The nodes on the broadcast tree, in connection-list order, without those behind `skip`. */
  function Targets(conns: seq<Conn>, mst: set<nat>, skip: set<nat>): seq<Name> {
    if conns == [] then []
    else
      var c := conns[|conns| - 1];
      Targets(conns[..|conns| - 1], mst, skip) + if c.edge && c.id in mst && c.id !in skip then [c.node] else []
  }

  /** broadcast_packet: a copy for ourselves unless we are the source, and one for every
      connection of the broadcast tree except the one the packet came from. */
  method BroadcastPacket(d: Daemon, from: Name, tunnelserver: bool, mode: Mode) returns (copy: bool, sends: seq<Name>)
    requires from in d.routes
    ensures copy <==> from != d.net.myself
    ensures sends == if tunnelserver || mode == NoBroadcast then [] else Targets(d.conns, d.mst, Upstream(d, from))
  {
    copy := from != d.net.myself;
    sends := [];
    if tunnelserver || mode == NoBroadcast {
      return;
    }
    var i := 0;
    while i < |d.conns|
      invariant 0 <= i <= |d.conns|
      invariant sends == Targets(d.conns[..i], d.mst, Upstream(d, from))
    {
      var c := d.conns[i];
      assert d.conns[..i + 1][..i] == d.conns[..i];
      if c.edge && c.id in d.mst && c.id !in Upstream(d, from) {
        sends := sends + [c.node];
      }
      i := i + 1;
    }
    assert d.conns[..i] == d.conns;
  }

  /** The connection of an edge is on the list, with the edge's far end as its node. */
  ghost predicate Listed(d: Daemon, k: Key)
    requires k in d.connOf
  {
    exists i :: 0 <= i < |d.conns| && d.conns[i].edge && d.conns[i].id == d.connOf[k] && d.conns[i].node == k.1
  }

  /** The connection list of a daemon matches its own edges: every two-way edge from here has
      a connection, and every connection with an edge is listed once. */
  ghost predicate ConnectionsOk(d: Daemon, links: set<Edge>) {
    var me := d.net.myself;
    && (forall k | k in d.connOf :: k.0 == me)
    && (forall e | e in links && e.from == me :: KeyOf(e) in d.connOf)
    && (forall i, j | 0 <= i < j < |d.conns| :: d.conns[i].id != d.conns[j].id)
    && (forall i | 0 <= i < |d.conns| && d.conns[i].edge ::
          (me, d.conns[i].node) in d.connOf && d.connOf[(me, d.conns[i].node)] == d.conns[i].id)
    && (forall k | k in d.connOf :: Listed(d, k))
  }

  /** The daemon knows the shared edge set, in which no two-way edge is indirect, and holds what
      sssp_bfs, check_reachability and mst_kruskal compute from it. */
  ghost predicate UpToDate(d: Daemon, edges: seq<Edge>, rev: set<Key>) {
    && d.net.Valid() && d.net.Symmetric() && d.net.NoIndirect()
    && d.net.rev == rev && d.net.Links() == TwoWay(edges, rev)
    && SsspBfs.RoutesOk(d.net, d.routes)
    && SsspBfs.ShortestRoutes(d.net.Links(), d.net.myself, d.routes)
    && d.mst == MstConnections(Grow(edges, rev, Start(edges, d.routes.Keys)), d.connOf)
    && ConnectionsOk(d, TwoWay(edges, rev))
  }

  /** A neighbour is its own next hop. */
  lemma NeighbourNextHop(links: set<Edge>, myself: Name, r: Routes, e: Edge)
    requires SsspBfs.ShortestRoutes(links, myself, r) && myself in r
    requires e in links && e.from == myself && e.to != myself
    ensures e.to in r && r[e.to].nexthop == e.to
  {
    var x := e.to;
    NeighbourDistance(links, myself, r, e);
    assert SsspBfs.IsLightestPrev(r, e);
    OnlySelfAtZero(links, myself, r, r[x].prev.value.from);
  }

  lemma NeighbourDistance(links: set<Edge>, myself: Name, r: Routes, e: Edge)
    requires SsspBfs.ShortestRoutes(links, myself, r) && myself in r
    requires e in links && e.from == myself && e.to != myself
    ensures e.to in r && r[e.to].distance == 1 && r[myself].distance == 0
  {
    var p0, p1 := [myself], [myself, e.to];
    assert SsspBfs.Walk(links, p0);
    assert p1[..1] == p0 && SsspBfs.Adjacent(links, myself, e.to);
    assert SsspBfs.Walk(links, p1);
    assert p1[|p1| - 1] in r && r[e.to].distance <= 1;
    assert p0[|p0| - 1] in r && r[myself].distance <= 0;
    OnlySelfAtZero(links, myself, r, e.to);
  }

  lemma OnlySelfAtZero(links: set<Edge>, myself: Name, r: Routes, x: Name)
    requires SsspBfs.ShortestRoutes(links, myself, r) && x in r
    ensures r[x].distance == 0 ==> x == myself
  {
    var p :| SsspBfs.Walk(links, p) && p[0] == myself && p[|p| - 1] == x && |p| - 1 == r[x].distance;
  }

  /** Which connections carry the flag: those whose edge, either way, is in the tree. */
  lemma {:induction false} MstConnectionsMember(tree: seq<Edge>, connections: map<Key, nat>, c: nat)
    ensures c in MstConnections(tree, connections) <==>
            exists e :: e in tree
              && (c in ConnectionOf(KeyOf(e), connections) || c in ConnectionOf(Flip(KeyOf(e)), connections))
  {
    if tree != [] {
      var init, last := tree[..|tree| - 1], tree[|tree| - 1];
      MstConnectionsMember(init, connections, c);
      assert tree == init + [last];
    }
  }

  /** The flag of a listed connection says whether a tree edge joins this daemon to its node. */
  lemma FlagMeansLinked(d: Daemon, links: set<Edge>, tree: seq<Edge>, c: Conn)
    requires ConnectionsOk(d, links) && c in d.conns && c.edge
    ensures c.id in MstConnections(tree, d.connOf) <==> Flooding.Linked(Elements(tree), d.net.myself, c.node)
  {
    var me := d.net.myself;
    MstConnectionsMember(tree, d.connOf, c.id);
    forall e | e in tree
      ensures c.id in ConnectionOf(KeyOf(e), d.connOf) || c.id in ConnectionOf(Flip(KeyOf(e)), d.connOf)
              <==> Flooding.Joins(e, me, c.node)
    {
      ConnectionMeansKey(d, links, c, KeyOf(e));
      ConnectionMeansKey(d, links, c, Flip(KeyOf(e)));
    }
    assert forall e :: e in tree <==> e in Elements(tree);
  }

  lemma ConnectionMeansKey(d: Daemon, links: set<Edge>, c: Conn, k: Key)
    requires ConnectionsOk(d, links) && c in d.conns && c.edge
    ensures c.id in ConnectionOf(k, d.connOf) <==> k == (d.net.myself, c.node)
  {
    if k in d.connOf && d.connOf[k] == c.id {
      assert Listed(d, k);
      var i :| 0 <= i < |d.conns| && d.conns[i].edge && d.conns[i].id == d.connOf[k] && d.conns[i].node == k.1;
      var j :| 0 <= j < |d.conns| && d.conns[j] == c;
      assert i == j;
    }
  }

  /** The chosen targets: listed connections with an edge and the flag, except the skipped one. */
  lemma {:induction false} TargetsMember(conns: seq<Conn>, mst: set<nat>, skip: set<nat>, x: Name)
    ensures x in Targets(conns, mst, skip) <==>
            exists i :: 0 <= i < |conns| && conns[i].node == x && conns[i].edge && conns[i].id in mst
              && conns[i].id !in skip
  {
    if conns != [] {
      var init, last := conns[..|conns| - 1], conns[|conns| - 1];
      TargetsMember(init, mst, skip, x);
      assert conns == init + [last];
    }
  }

  lemma {:induction false} TargetsDistinct(conns: seq<Conn>, mst: set<nat>, skip: set<nat>)
    requires forall i, j | 0 <= i < j < |conns| && conns[i].edge && conns[j].edge :: conns[i].node != conns[j].node
    ensures var out := Targets(conns, mst, skip); forall i, j | 0 <= i < j < |out| :: out[i] != out[j]
  {
    if conns != [] {
      var init, last := conns[..|conns| - 1], conns[|conns| - 1];
      TargetsDistinct(init, mst, skip);
      TargetsMember(init, mst, skip, last.node);
    }
  }

  /** Connections with an edge lead to different nodes. */
  lemma NodesDistinct(d: Daemon, links: set<Edge>)
    requires ConnectionsOk(d, links)
    ensures forall i, j | 0 <= i < j < |d.conns| && d.conns[i].edge && d.conns[j].edge ::
              d.conns[i].node != d.conns[j].node
  {
  }

  /** Joined by a two-way edge: then there is one from here to there. */
  lemma EdgeFrom(net: Net, tree: set<Edge>, x: Name) returns (e: Edge)
    requires net.Symmetric() && tree <= net.Links() && Flooding.Linked(tree, net.myself, x)
    ensures e in net.Links() && e.from == net.myself && e.to == x
  {
    var links := net.Links();
    e :| e in tree && Flooding.Joins(e, net.myself, x);
    if !(e.from == net.myself && e.to == x) {
      assert HasTwin(links, e);
      e :| e in links && KeyOf(e) == (net.myself, x);
    }
  }

  /** What is skipped is the connection to the sender, or nothing at the origin. */
  lemma UpstreamNextHop(d: Daemon, tree: set<Edge>, from: Name)
    requires d.net.Symmetric() && tree <= d.net.Links()
    requires SsspBfs.RoutesOk(d.net, d.routes) && SsspBfs.ShortestRoutes(d.net.Links(), d.net.myself, d.routes)
    requires from == d.net.myself || (Flooding.Linked(tree, d.net.myself, from) && from != d.net.myself)
    ensures from in d.routes && d.routes[from].nexthop == from
  {
    hide SsspBfs.ShortestRoutes;
    if from != d.net.myself {
      var e := EdgeFrom(d.net, tree, from);
      NeighbourNextHop(d.net.Links(), d.net.myself, d.routes, e);
    }
  }

  /** The connection that leads to a tree neighbour. */
  lemma ConnectionTo(d: Daemon, tree: set<Edge>, x: Name) returns (i: nat)
    requires d.net.Symmetric() && tree <= d.net.Links() && ConnectionsOk(d, d.net.Links())
    requires Flooding.Linked(tree, d.net.myself, x)
    ensures i < |d.conns| && d.conns[i].edge && d.conns[i].node == x
  {
    var e := EdgeFrom(d.net, tree, x);
    assert Listed(d, KeyOf(e));
    i :| 0 <= i < |d.conns| && d.conns[i].edge && d.conns[i].id == d.connOf[KeyOf(e)] && d.conns[i].node == KeyOf(e).1;
  }

  /** Every daemon forwards exactly to its tree neighbours, except back to the sender. */
  lemma DaemonForwards(d: Daemon, tree: seq<Edge>, from: Name)
    requires d.net.Symmetric() && Elements(tree) <= d.net.Links() && ConnectionsOk(d, d.net.Links())
    requires SsspBfs.RoutesOk(d.net, d.routes) && SsspBfs.ShortestRoutes(d.net.Links(), d.net.myself, d.routes)
    requires d.mst == MstConnections(tree, d.connOf)
    requires !Flooding.Linked(Elements(tree), d.net.myself, d.net.myself)
    requires from == d.net.myself || Flooding.Linked(Elements(tree), d.net.myself, from)
    ensures from in d.routes
    ensures Flooding.ForwardsOn(Elements(tree), d.net.myself, from, Targets(d.conns, d.mst, Upstream(d, from)))
  {
    hide SsspBfs.ShortestRoutes, SsspBfs.RoutesOk, Flooding.Linked, ConnectionsOk, MstConnections, Targets;
    var me, t := d.net.myself, Elements(tree);
    UpstreamNextHop(d, t, from);
    var skip := Upstream(d, from);
    var out := Targets(d.conns, d.mst, skip);
    NodesDistinct(d, d.net.Links());
    TargetsDistinct(d.conns, d.mst, skip);
    forall x
      ensures x in out <==> Flooding.Linked(t, me, x) && x != from
    {
      TargetsMember(d.conns, d.mst, skip, x);
      forall i | 0 <= i < |d.conns| && d.conns[i].edge && d.conns[i].node == x
        ensures d.conns[i].id in d.mst <==> Flooding.Linked(t, me, x)
        ensures d.conns[i].id in skip <==> from == x
      {
        FlagMeansLinked(d, d.net.Links(), tree, d.conns[i]);
        ConnectionMeansKey(d, d.net.Links(), d.conns[i], (me, from));
      }
      if Flooding.Linked(t, me, x) {
        var i := ConnectionTo(d, t, x);
      }
    }
    assert (set x | x in out) == Flooding.Neighbours(t, me) - {from};
  }

  /** The tree every daemon of a component computes. */
  function SharedTree(edges: seq<Edge>, rev: set<Key>, v: set<Name>): seq<Edge> {
    Grow(edges, rev, Start(edges, v))
  }

  lemma SharedTreeSpans(net: Net, edges: seq<Edge>, rev: set<Key>, origin: Name)
    requires net.Symmetric() && net.Links() == TwoWay(edges, rev)
    ensures var v := Component(TwoWay(edges, rev), origin);
            var tree := Elements(SharedTree(edges, rev, v));
            tree <= TwoWay(edges, rev) && SpanningTree(tree, v)
  {
    hide SpanningTree;
    var b := TwoWay(edges, rev);
    var v := Component(b, origin);
    ComponentClosed(b, origin);
    if start :| start in Start(edges, v) {
      ComponentSame(b, origin, start);
      MstOptimal.GrowSpansComponent(edges, rev, start);
    } else {
      Lonely(net, edges, rev, origin);
    }
  }

  /** Without a starting point there is nobody to reach. */
  lemma Lonely(net: Net, edges: seq<Edge>, rev: set<Key>, origin: Name)
    requires net.Symmetric() && net.Links() == TwoWay(edges, rev)
    requires Start(edges, Component(TwoWay(edges, rev), origin)) == {}
    ensures SharedTree(edges, rev, Component(TwoWay(edges, rev), origin)) == []
    ensures SpanningTree({}, Component(TwoWay(edges, rev), origin))
    ensures Elements([]) == {}
  {
    var b := TwoWay(edges, rev);
    var v := Component(b, origin);
    ComponentClosed(b, origin);
    forall e | e in b
      ensures e.from in {origin} <==> e.to in {origin}
    {
      assert HasTwin(net.Links(), e);
      var e' :| e' in b && KeyOf(e') == Flip(KeyOf(e));
      assert e.from !in v && e'.from !in v;
    }
    assert Closed(b, {origin});
    ComponentUnique(b, origin, {origin});
    forall d: set<Name> | d <= {origin} && d != {}
      ensures d == {origin}
    {
    }
    assert First(edges, rev, {}, 0) == |edges|;
  }

  /** All daemons of the component hold what graph() computes from the same edges. */
  ghost predicate NetworkOk(network: map<Name, Daemon>, edges: seq<Edge>, rev: set<Key>, v: set<Name>) {
    forall n | n in v :: n in network && network[n].net.myself == n && UpToDate(network[n], edges, rev)
  }

  /** What daemon `n` sends when it broadcasts a packet that came from `from`. */
  function Forward(network: map<Name, Daemon>, n: Name, from: Name): seq<Name> {
    if n in network && from in network[n].routes
    then Targets(network[n].conns, network[n].mst, Upstream(network[n], from))
    else []
  }

  /** A broadcast by `origin` and deliveries in any order. */
  ghost predicate BroadcastRun(network: map<Name, Daemon>, origin: Name, run: seq<Flooding.Flood>,
                               ms: seq<Flooding.Message>) {
    && |run| == |ms| + 1
    && run[0] == Flooding.Begin(origin, Forward(network, origin, origin))
    && forall i | 0 <= i < |ms| :: Flooding.Deliver(run[i], run[i + 1], ms[i], Forward(network, ms[i].1, ms[i].0))
  }

  lemma NetworkForwards(network: map<Name, Daemon>, edges: seq<Edge>, rev: set<Key>, v: set<Name>, n: Name, from: Name)
    requires NetworkOk(network, edges, rev, v) && n in v && v == Component(TwoWay(edges, rev), n)
    requires from == n || Flooding.Linked(Elements(SharedTree(edges, rev, v)), n, from)
    ensures Flooding.ForwardsOn(Elements(SharedTree(edges, rev, v)), n, from, Forward(network, n, from))
  {
    hide SsspBfs.ShortestRoutes, Flooding.Linked, Flooding.ForwardsOn, ConnectionsOk, MstConnections, Targets,
         SpanningTree;
    var d := network[n];
    var tree := SharedTree(edges, rev, v);
    SharedTreeSpans(d.net, edges, rev, n);
    Flooding.NoSelfLink(Elements(tree), v, n);
    assert d.routes.Keys == v;
    DaemonForwards(d, tree, from);
  }

  ghost function Outs(network: map<Name, Daemon>, ms: seq<Flooding.Message>): seq<seq<Name>> {
    seq(|ms|, i requires 0 <= i < |ms| => Forward(network, ms[i].1, ms[i].0))
  }

  /** Whoever receives a message is in the component and was sent it over a tree edge. */
  lemma ReceiverForwards(network: map<Name, Daemon>, edges: seq<Edge>, rev: set<Key>, origin: Name,
                         done: set<Name>, f: Flooding.Flood, m: Flooding.Message)
    requires var v := Component(TwoWay(edges, rev), origin); NetworkOk(network, edges, rev, v)
    requires var v := Component(TwoWay(edges, rev), origin); var tree := Elements(SharedTree(edges, rev, v));
             SpanningTree(tree, v) && Flooding.Spread(tree, v, origin, done, f)
    requires m in f.inflight
    ensures var v := Component(TwoWay(edges, rev), origin); var tree := Elements(SharedTree(edges, rev, v));
            Flooding.ForwardsOn(tree, m.1, m.0, Forward(network, m.1, m.0))
  {
    hide NetworkOk, Connects, Flooding.ForwardsOn, SharedTree, Component;
    var v := Component(TwoWay(edges, rev), origin);
    var tree := Elements(SharedTree(edges, rev, v));
    assert m in Flooding.Frontier(tree, done);
    assert (m.0, m.1) == m;
    var e :| e in tree && Flooding.Joins(e, m.0, m.1);
    assert Flooding.Joins(e, m.1, m.0);
    assert m.1 in v;
    ComponentSame(TwoWay(edges, rev), origin, m.1);
    NetworkForwards(network, edges, rev, v, m.1, m.0);
  }

  lemma {:induction false} RunIsFlood(network: map<Name, Daemon>, edges: seq<Edge>, rev: set<Key>, origin: Name,
                                      run: seq<Flooding.Flood>, ms: seq<Flooding.Message>, i: nat)
    requires var v := Component(TwoWay(edges, rev), origin);
             NetworkOk(network, edges, rev, v) && SpanningTree(Elements(SharedTree(edges, rev, v)), v)
    requires BroadcastRun(network, origin, run, ms) && i <= |ms|
    ensures var v := Component(TwoWay(edges, rev), origin); var tree := Elements(SharedTree(edges, rev, v));
            Flooding.Run(tree, origin, Forward(network, origin, origin), run[..i + 1], ms[..i], Outs(network, ms[..i]))
    decreases i
  {
    hide NetworkOk, SpanningTree, SharedTree, Flooding.ForwardsOn, Flooding.Deliver, Flooding.Begin;
    var v := Component(TwoWay(edges, rev), origin);
    var tree := Elements(SharedTree(edges, rev, v));
    var out := Forward(network, origin, origin);
    ComponentClosed(TwoWay(edges, rev), origin);
    if i == 0 {
      NetworkForwards(network, edges, rev, v, origin, origin);
    } else {
      var k := i - 1;
      RunIsFlood(network, edges, rev, origin, run, ms, k);
      var done := Flooding.RunSpread(tree, v, origin, out, run[..k + 1], ms[..k], Outs(network, ms[..k]), k);
      assert Flooding.Deliver(run[k], run[k + 1], ms[k], Forward(network, ms[k].1, ms[k].0));
      MessageInFlight(run[k], run[k + 1], ms[k], Forward(network, ms[k].1, ms[k].0));
      ReceiverForwards(network, edges, rev, origin, done, run[k], ms[k]);
      RunExtends(tree, origin, out, run, ms, network, k);
    }
  }

  lemma MessageInFlight(f: Flooding.Flood, f': Flooding.Flood, m: Flooding.Message, out: seq<Name>)
    requires Flooding.Deliver(f, f', m, out)
    ensures m in f.inflight
  {
  }

  lemma RunExtends(tree: set<Edge>, origin: Name, out: seq<Name>, run: seq<Flooding.Flood>, ms: seq<Flooding.Message>,
                   network: map<Name, Daemon>, k: nat)
    requires k < |ms| && |run| == |ms| + 1
    requires Flooding.Run(tree, origin, out, run[..k + 1], ms[..k], Outs(network, ms[..k]))
    requires Flooding.Deliver(run[k], run[k + 1], ms[k], Forward(network, ms[k].1, ms[k].0))
    requires Flooding.ForwardsOn(tree, ms[k].1, ms[k].0, Forward(network, ms[k].1, ms[k].0))
    ensures Flooding.Run(tree, origin, out, run[..k + 2], ms[..k + 1], Outs(network, ms[..k + 1]))
  {
    hide Flooding.ForwardsOn, Flooding.Deliver, Flooding.Begin;
    var run', ms', outs' := run[..k + 2], ms[..k + 1], Outs(network, ms[..k + 1]);
    var run0, ms0, outs0 := run[..k + 1], ms[..k], Outs(network, ms[..k]);
    forall i | 0 <= i < |ms'|
      ensures Flooding.Deliver(run'[i], run'[i + 1], ms'[i], outs'[i])
              && Flooding.ForwardsOn(tree, ms'[i].1, ms'[i].0, outs'[i])
    {
      if i < k {
        assert Flooding.Deliver(run0[i], run0[i + 1], ms0[i], outs0[i]);
      }
    }
  }

  /** A broadcast in MST mode reaches every other reachable node exactly once, under any order
      of deliveries, and then stops. */
  lemma BroadcastExactlyOnce(network: map<Name, Daemon>, edges: seq<Edge>, rev: set<Key>, origin: Name,
                             run: seq<Flooding.Flood>, ms: seq<Flooding.Message>)
    requires NetworkOk(network, edges, rev, Component(TwoWay(edges, rev), origin))
    requires BroadcastRun(network, origin, run, ms)
    ensures var last := run[|run| - 1];
            var others := Component(TwoWay(edges, rev), origin) - {origin};
            && (forall n :: last.copies[n] <= 1 && (n !in others ==> last.copies[n] == 0))
            && |ms| <= |others|
            && (last.inflight == multiset{} <==> |ms| == |others|)
            && (last.inflight == multiset{} <==> last.copies == multiset(others))
  {
    hide SpanningTree, SharedTree, Flooding.Run, SsspBfs.RoutesOk, SsspBfs.ShortestRoutes, ConnectionsOk,
         MstConnections;
    var v := Component(TwoWay(edges, rev), origin);
    var tree := Elements(SharedTree(edges, rev, v));
    ComponentClosed(TwoWay(edges, rev), origin);
    SharedTreeSpans(network[origin].net, edges, rev, origin);
    RunIsFlood(network, edges, rev, origin, run, ms, |ms|);
    assert run[..|ms| + 1] == run && ms[..|ms|] == ms;
    Flooding.FloodExactlyOnce(tree, v, origin, Forward(network, origin, origin), run, ms, Outs(network, ms));
  }

  /** graph() at one daemon: routes, then reachability, then the broadcast tree. */
  method ComputeGraph(net: Net, edges: seq<Edge>, connOf: map<Key, nat>, conns: seq<Conn>) returns (d: Daemon)
    requires net.Valid() && net.Symmetric() && net.NoIndirect() && net.Links() == TwoWay(edges, net.rev)
    requires ConnectionsOk(Daemon(net, map[], connOf, conns, {}), TwoWay(edges, net.rev))
    ensures d.net == net && d.connOf == connOf && d.conns == conns
    ensures UpToDate(d, edges, net.rev)
  {
    hide SsspBfs.RoutesOk, SsspBfs.ShortestRoutes, MstConnections;
    var routes := SsspBfs.SsspBfs(net);
    var visited, mst, tree := MstKruskal(edges, net.rev, routes.Keys, connOf);
    d := Daemon(net, routes, connOf, conns, mst);
    SameConnections(Daemon(net, map[], connOf, conns, {}), d, TwoWay(edges, net.rev));
  }

  lemma SameConnections(d: Daemon, d': Daemon, links: set<Edge>)
    requires ConnectionsOk(d, links)
    requires d'.net == d.net && d'.connOf == d.connOf && d'.conns == d.conns
    ensures ConnectionsOk(d', links)
  {
    forall k | k in d'.connOf
      ensures Listed(d', k)
    {
      assert Listed(d, k);
    }
  }
}
