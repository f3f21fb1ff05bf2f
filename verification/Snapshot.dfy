/** A daemon between two events, as one of the daemons a broadcast passes: the store of edges, the
    connections and the nodes' connections give what graph() computes the broadcast tree from. */
module Snapshots {
  import opened Names
  import opened Edges
  import opened EdgeTrees
  import opened EdgeStores
  import opened Daemons
  import Broadcast
  import Cuts
  import Flooding
  import Mst
  import MstOptimal
  import Sssp
  import SsspBfs

  /** The edges of the weight tree that have a reverse are the two-way edges. */
  lemma TwoWayStored(weights: seq<Edge>, reverse: map<Key, Key>)
    requires ReverseOk(reverse, Items(weights))
    ensures Mst.TwoWay(weights, reverse.Keys) == TwoWayOf(Items(weights))
  {
    forall e
      ensures e in Mst.TwoWay(weights, reverse.Keys) <==> e in TwoWayOf(Items(weights))
    {
      if e in weights {
        SomeKey(Items(weights), e);
        assert KeyOf(e) in reverse <==> HasKey(Items(weights), KeyOf(e)) && HasKey(Items(weights), Flip(KeyOf(e)));
      }
    }
  }

  /** The weight tree is in the order mst_kruskal needs. */
  lemma WeightTreeSorted(weights: seq<Edge>, base: int)
    requires WeightsOk(weights, base)
    ensures MstOptimal.WeightSorted(weights)
  {
  }

  /** The connection of each edge of ours. */
  function ConnectionsOf(active: map<Name, nat>, myself: Name): map<Key, nat> {
    map n | n in active :: (myself, n) := active[n]
  }

  /** The connection list in the given order. */
  function Listing(conns: map<nat, Conn>, order: seq<nat>): seq<Broadcast.Conn>
    requires forall c <- order :: c in conns
  {
    seq(|order|, i requires 0 <= i < |order| => Broadcast.Conn(order[i], conns[order[i]].name,
                                                               conns[order[i]].edge.Some?))
  }

  /** `order` is the connection list, without repetition. */
  ghost predicate Orders(order: seq<nat>, conns: map<nat, Conn>) {
    && (forall c: nat :: c in order <==> c in conns)
    && (forall i, j | 0 <= i < j < |order| :: order[i] != order[j])
  }

  lemma ConnectionsMatch(net: Sssp.Net, conns: map<nat, Conn>, active: map<Name, nat>, all: set<Edge>, order: seq<nat>)
    requires ConnsOk(conns, active, all, net.myself) && Orders(order, conns)
    ensures Broadcast.ConnectionsOk(
              Broadcast.Daemon(net, map[], ConnectionsOf(active, net.myself), Listing(conns, order), {}), TwoWayOf(all))
  {
    var me := net.myself;
    var b := Broadcast.Daemon(net, map[], ConnectionsOf(active, me), Listing(conns, order), {});
    forall e | e in TwoWayOf(all) && e.from == me
      ensures KeyOf(e) in b.connOf
    {
      SomeKey(all, e);
      NotActive(conns, active, all, me, e.to);
    }
    forall i | 0 <= i < |b.conns| && b.conns[i].edge
      ensures (me, b.conns[i].node) in b.connOf && b.connOf[(me, b.conns[i].node)] == b.conns[i].id
    {
      ConnCase(conns, active, all, me, order[i]);
    }
    forall k | k in b.connOf
      ensures Broadcast.Listed(b, k)
    {
      ActiveListed(conns, active, all, me, k.1, order);
    }
  }

  lemma ActiveListed(conns: map<nat, Conn>, active: map<Name, nat>, all: set<Edge>, myself: Name, n: Name,
                     order: seq<nat>)
    requires ConnsOk(conns, active, all, myself) && Orders(order, conns) && n in active
    ensures exists i :: 0 <= i < |order| && Listing(conns, order)[i] == Broadcast.Conn(active[n], n, true)
  {
    var i :| 0 <= i < |order| && order[i] == active[n];
    assert Listing(conns, order)[i] == Broadcast.Conn(active[n], n, true);
  }

  /** A valid daemon without indirect two-way edges runs graph(): what it then holds is up to date,
      in the sense a broadcast needs, with the edges it knows. */
  method Snapshot(d: Daemon, order: seq<nat>) returns (b: Broadcast.Daemon)
    requires d.Valid() && d.Flat() && Orders(order, d.conns)
    ensures b.net.myself == d.myself && b.net.adj == d.edges.trees && b.routes.Keys == d.reachable
    ensures Broadcast.UpToDate(b, d.edges.weights, d.edges.reverse.Keys) && MstOptimal.WeightSorted(d.edges.weights)
  {
    hide TreesOk, WeightsOk, Holds, ReverseOk, ConnsOk, Items, TwoWayOf, SsspBfs.RoutesOk, SsspBfs.ShortestRoutes;
    hide Broadcast.ConnectionsOk, ConnectionsOf, Listing, MstOptimal.WeightSorted;
    var net := Sssp.Net(d.edges.trees, d.edges.reverse.Keys, d.myself);
    NetOf(d.edges.trees, d.edges.reverse, d.edges.All(), d.myself);
    TwoWayStored(d.edges.weights, d.edges.reverse);
    WeightTreeSorted(d.edges.weights, d.edges.base);
    ConnectionsMatch(net, d.conns, d.active, d.edges.All(), order);
    b := Broadcast.ComputeGraph(net, d.edges.weights, ConnectionsOf(d.active, d.myself), Listing(d.conns, order));
    Visited(net, b.routes);
  }

  /** The daemons know the same edges, none of which is two-way and indirect, and are between events. */
  ghost predicate InStep(ds: map<Name, Daemon>, all: set<Edge>)
    reads ds.Values, set d <- ds.Values :: d.edges
  {
    forall n <- ds.Keys :: ds[n].myself == n && ds[n].Valid() && ds[n].Flat() && ds[n].edges.All() == all
  }

  /** What the daemons hold after graph(). */
  ghost predicate Shots(network: map<Name, Broadcast.Daemon>, ds: map<Name, Daemon>)
    reads ds.Values, set d <- ds.Values :: d.edges
  {
    forall n <- ds.Keys ::
      && n in network && network[n].net.myself == n
      && Broadcast.UpToDate(network[n], ds[n].edges.weights, ds[n].edges.reverse.Keys)
  }

  /** Stores with the same edges have the same weight tree and the same reverse pointers. */
  lemma SameStores(weights: seq<Edge>, base: int, reverse: map<Key, Key>, weights': seq<Edge>, base': int,
                   reverse': map<Key, Key>)
    requires WeightsOk(weights, base) && ReverseOk(reverse, Items(weights))
    requires WeightsOk(weights', base') && ReverseOk(reverse', Items(weights'))
    requires Items(weights) == Items(weights')
    ensures weights == weights' && reverse.Keys == reverse'.Keys
  {
    WeightOrder(base);
    SortedUnique(EdgeWeightCompare, weights, weights', SafeEdges(base));
  }

  /** A broadcast over daemons that are valid between two events and know the same edges: every other
      node that can be reached gets exactly one copy, in any order of deliveries, and nobody else. */
  lemma DaemonsBroadcast(ds: map<Name, Daemon>, all: set<Edge>, network: map<Name, Broadcast.Daemon>, origin: Name,
                         run: seq<Flooding.Flood>, ms: seq<Flooding.Message>)
    requires InStep(ds, all) && Shots(network, ds) && Cuts.Component(TwoWayOf(all), origin) <= ds.Keys
    requires Broadcast.BroadcastRun(network, origin, run, ms)
    ensures var last := run[|run| - 1];
            var others := Cuts.Component(TwoWayOf(all), origin) - {origin};
            && (forall n :: last.copies[n] <= 1 && (n !in others ==> last.copies[n] == 0))
            && |ms| <= |others|
            && (last.inflight == multiset{} <==> |ms| == |others|)
            && (last.inflight == multiset{} <==> last.copies == multiset(others))
  {
    hide TreesOk, WeightsOk, Holds, ReverseOk, ConnsOk, TwoWayOf, Items, Broadcast.UpToDate, Broadcast.BroadcastRun;
    hide Cuts.Component, Cuts.Closed;
    SelfReachable(TwoWayOf(all), origin);
    var d := ds[origin].edges;
    TwoWayStored(d.weights, d.reverse);
    forall n <- ds.Keys
      ensures ds[n].edges.weights == d.weights && ds[n].edges.reverse.Keys == d.reverse.Keys
    {
      var d' := ds[n].edges;
      SameStores(d'.weights, d'.base, d'.reverse, d.weights, d.base, d.reverse);
    }
    Broadcast.BroadcastExactlyOnce(network, d.weights, d.reverse.Keys, origin, run, ms);
  }

  /** Running graph() everywhere gives such a network. */
  method TakeAll(ds: map<Name, Daemon>, ghost all: set<Edge>, orders: map<Name, seq<nat>>)
    returns (network: map<Name, Broadcast.Daemon>)
    requires InStep(ds, all) && ds.Keys <= orders.Keys && forall n <- ds.Keys :: Orders(orders[n], ds[n].conns)
    ensures Shots(network, ds)
  {
    hide TreesOk, WeightsOk, Holds, ReverseOk, ConnsOk, TwoWayOf, Items, Broadcast.UpToDate;
    network := map[];
    var todo := ds.Keys;
    while todo != {}
      invariant todo <= ds.Keys && InStep(ds, all) && Shots(network, map n | n in ds && n !in todo :: ds[n])
    {
      var n :| n in todo;
      var b := Snapshot(ds[n], orders[n]);
      network := network[n := b];
      todo := todo - {n};
    }
    assert (map n | n in ds && n !in todo :: ds[n]) == ds;
  }
}
