/** What happens to the edges, the connections and the reachability of nodes between two runs of
    the event loop: the handlers of src/protocol_edge.c, activation and termination of
    connections, and purging. */
module Daemons {
  import opened Common
  import opened Names
  import opened Edges
  import opened EdgeTrees
  import opened EdgeStores
  import Cuts
  import Sssp
  import SsspBfs

  /** Removing edges that lie outside a component does not change it. */
  lemma SubComponent(es: set<Edge>, es': set<Edge>, root: Name)
    requires es' <= es && forall f <- es - es' :: f.from !in Cuts.Component(es, root)
    ensures Cuts.Component(es', root) == Cuts.Component(es, root)
  {
    var c := Cuts.Component(es, root);
    Cuts.ComponentClosed(es, root);
    forall x <- c
      ensures Cuts.Reachable(es', root, x)
    {
      forall s: set<Name> | root in s && Cuts.Closed(es', s)
        ensures x in s
      {
        InnerClosed(es, es', c, s);
        assert x in s * c;
      }
    }
    assert Cuts.Closed(es', c);
    Cuts.ComponentUnique(es', root, c);
  }

  lemma InnerClosed(es: set<Edge>, es': set<Edge>, c: set<Name>, s: set<Name>)
    requires es' <= es && Cuts.Closed(es, c) && Cuts.Closed(es', s) && forall f <- es - es' :: f.from !in c
    ensures Cuts.Closed(es, s * c)
  {
    forall f <- es
      ensures f.from in s * c <==> f.to in s * c
    {
      if f !in es' {
        assert f in es - es';
      }
    }
  }

  /** The two-way edges lost with an edge are that edge and its opposite. */
  lemma LostLinks(all: set<Edge>, e: Edge, f: Edge)
    requires Unique(all) && e in all && f in TwoWayOf(all) - TwoWayOf(all - {e})
    ensures f == e || KeyOf(f) == Flip(KeyOf(e))
  {
    KeyRemoved(all, e, Flip(KeyOf(f)));
  }

  lemma FewerLinks(all: set<Edge>, e: Edge)
    requires Unique(all) && e in all
    ensures TwoWayOf(all - {e}) <= TwoWayOf(all)
  {
    forall f <- TwoWayOf(all - {e})
      ensures f in TwoWayOf(all)
    {
      KeyRemoved(all, e, Flip(KeyOf(f)));
    }
  }

  /** Deleting an edge of an unreachable node changes nobody's reachability. */
  lemma DeadEdge(all: set<Edge>, e: Edge, myself: Name)
    requires Unique(all) && e in all && e.from !in Cuts.Component(TwoWayOf(all), myself)
    ensures Cuts.Component(TwoWayOf(all - {e}), myself) == Cuts.Component(TwoWayOf(all), myself)
  {
    var es, es' := TwoWayOf(all), TwoWayOf(all - {e});
    FewerLinks(all, e);
    Cuts.ComponentClosed(es, myself);
    forall f <- es - es'
      ensures f.from !in Cuts.Component(es, myself)
    {
      LostLinks(all, e, f);
      if f != e {
        assert f in es && (f.from in Cuts.Component(es, myself) <==> f.to in Cuts.Component(es, myself));
      }
    }
    SubComponent(es, es', myself);
  }

  /** The graph the routes are computed from. */
  lemma NetOf(trees: map<Name, seq<Edge>>, reverse: map<Key, Key>, all: set<Edge>, myself: Name)
    requires TreesOk(trees) && Holds(trees, all) && ReverseOk(reverse, all) && myself in trees
    ensures var net := Sssp.Net(trees, reverse.Keys, myself);
            net.Valid() && net.Symmetric() && net.Links() == TwoWayOf(all)
  {
    var net := Sssp.Net(trees, reverse.Keys, myself);
    forall n, i | n in trees && 0 <= i < |trees[n]|
      ensures var e := trees[n][i]; e.from == n && e.to in trees && e.to != n
    {
      assert TreeOk(n, trees.Keys, trees[n]) && trees[n][i] in trees[n];
    }
    forall e
      ensures e in net.Links() <==> e in TwoWayOf(all)
    {
      LinkMeans(trees, reverse, all, myself, e);
    }
    forall e | e in net.Links()
      ensures Sssp.HasTwin(net.Links(), e)
    {
      TwinLink(all, e);
    }
  }

  lemma LinkMeans(trees: map<Name, seq<Edge>>, reverse: map<Key, Key>, all: set<Edge>, myself: Name, e: Edge)
    requires TreesOk(trees) && Holds(trees, all) && ReverseOk(reverse, all) && myself in trees
    ensures e in Sssp.Net(trees, reverse.Keys, myself).Links() <==> e in TwoWayOf(all)
  {
    var net := Sssp.Net(trees, reverse.Keys, myself);
    if e in net.Links() {
      var n :| n in trees && e in trees[n] && KeyOf(e) in reverse.Keys;
      assert TreeOk(n, trees.Keys, trees[n]);
    }
    if e in TwoWayOf(all) {
      SomeKey(all, e);
      assert KeyOf(e) in reverse;
    }
  }

  lemma TwinLink(all: set<Edge>, e: Edge)
    requires e in TwoWayOf(all)
    ensures Sssp.HasTwin(TwoWayOf(all), e)
  {
    var f :| f in all && KeyOf(f) == Flip(KeyOf(e));
    SomeKey(all, e);
    assert f in TwoWayOf(all);
  }

  /** A meta connection: the name it was authenticated for, and once it is activated the node and
      the edge that stands for it. */
  datatype Conn = Conn(name: Name, node: Option<Name>, edge: Option<Key>)

  /** The connections that are activated, the nodes that have a connection and the edges that
      leave the local node are the same thing. */
  ghost predicate ConnsOk(conns: map<nat, Conn>, active: map<Name, nat>, all: set<Edge>, myself: Name) {
    && (forall n: Name :: n in active <==> HasKey(all, (myself, n)))
    && (forall n <- active.Keys :: active[n] in conns && conns[active[n]] == Conn(n, Some(n), Some((myself, n))))
    && (forall c <- conns.Keys :: Inactive(conns[c]) || ActiveFor(conns[c], c, active))
  }

  predicate Inactive(c: Conn) {
    c.node.None? && c.edge.None?
  }

  ghost predicate ActiveFor(c: Conn, id: nat, active: map<Name, nat>) {
    c.node.Some? && c.edge.Some? && c.node.value in active && active[c.node.value] == id
  }

  /** The contents of an ADD_EDGE message. */
  datatype EdgeMessage = EdgeMessage(from: Name, to: Name, address: SockAddr, options: nat, weight: int,
                                     local: SockAddr)

  /** What a message changes about a known edge. */
  function Merged(e: Edge, m: EdgeMessage): Edge {
    e.(options := m.options, weight := m.weight, address := m.address,
    local := if m.local.Unspecified? || m.local.Unknown? then e.local else m.local)
  }

  predicate Records(e: Edge, m: EdgeMessage) {
    KeyOf(e) == (m.from, m.to) && e.weight == m.weight && e.options == m.options && e.address == m.address
  }

  /** The local address of the edge of a message: what the message says, or if that is nothing what
      was known before. */
  ghost predicate LocalKnown(e: Edge, m: EdgeMessage, before: set<Edge>) {
    if (m.local.Unspecified? || m.local.Unknown?) && HasKey(before, KeyOf(e))
    then exists f <- before :: KeyOf(f) == KeyOf(e) && e.local == f.local
    else e.local == m.local
  }

  class Daemon {
    const myself: Name
    const tunnelserver: bool
    const edges: EdgeStore
    /** The nodes whose status.reachable is set. */
    var reachable: set<Name>
    /** The connection list. */
    var conns: map<nat, Conn>
    /** The connection field of each node that has one. */
    var active: map<Name, nat>

    ghost function Component(): set<Name>
      reads edges
    {
      Cuts.Component(TwoWayOf(edges.All()), myself)
    }

    /** No two-way edge is indirect. */
    ghost predicate Flat()
      reads edges
    {
      forall e <- TwoWayOf(edges.All()) :: !e.Indirect()
    }

    /** How many passes the route search needs at most if no two-way edge is indirect. */
    ghost function Bound(): nat
      reads edges
    {
      SsspBfs.Enough(|edges.trees.Keys|, |TwoWayOf(edges.All())|)
    }

    /** The route search over the edges there are ends within so many passes. */
    ghost predicate SearchEnds(fuel: nat)
      reads edges
    {
      SsspBfs.Ends(Sssp.Net(edges.trees, edges.reverse.Keys, myself), Sssp.InitialRoutes(myself), [myself], fuel)
    }

    /** Everything but the reachability of nodes. */
    ghost predicate Consistent()
      reads this, edges
    {
      edges.Valid() && myself in edges.trees && ConnsOk(conns, active, edges.All(), myself)
    }

    /** What holds between two events: a node is marked reachable exactly if it is. */
    ghost predicate Valid()
      reads this, edges
    {
      Consistent() && reachable == Component()
    }

    constructor (myself: Name, tunnelserver: bool, ghost base: int)
      ensures Valid() && fresh(edges) && this.myself == myself && edges.base == base
      ensures conns == map[] && active == map[] && edges.All() == {} && edges.trees.Keys == {myself}
    {
      this.myself, this.tunnelserver := myself, tunnelserver;
      edges := new EdgeStore(base);
      reachable, conns, active := {myself}, map[], map[];
      new;
      edges.AddNode(myself);
      assert TwoWayOf(edges.All()) == {};
      Alone(myself);
    }

    /** graph(), so far as it sets status.reachable; `fuel` bounds the passes of the route search. */
    method Graph(fuel: nat) returns (finished: bool)
      requires edges.Valid() && myself in edges.trees
      modifies this`reachable
      ensures edges.Valid() && (finished ==> reachable == Component())
      ensures finished <==> SearchEnds(fuel)
      ensures Flat() && fuel >= Bound() ==> finished
    {
      hide SsspBfs.Ends, TreesOk, WeightsOk, Holds, ReverseOk, ConnsOk, Items, TwoWayOf, SsspBfs.RoutesOk,
           SsspBfs.Enough;
      NetOf(edges.trees, edges.reverse, edges.All(), myself);
      var net := Sssp.Net(edges.trees, edges.reverse.Keys, myself);
      var r;
      finished, r := SsspBfs.SsspBfsWithin(net, fuel);
      if finished {
        Visited(net, r);
        reachable := r.Keys;
      }
    }

    /** A tunnel server does not listen to messages about edges between others. */
    predicate Ignores(c: nat, from: Name, to: Name)
      requires c in conns && conns[c].node.Some?
      reads this
    {
      tunnelserver && {from, to} !! {myself, conns[c].node.value}
    }

    /** A node that a message names. */
    method NeedNode(n: Name)
      requires Valid()
      modifies edges`trees
      ensures Valid() && edges.All() == old(edges.All()) && edges.trees.Keys == old(edges.trees.Keys) + {n}
    {
      if n !in edges.trees {
        edges.AddNode(n);
      }
    }

    /** add_edge_h, for a message that was not seen before, received over an activated connection. */
    method AddEdge(c: nat, m: EdgeMessage, fuel: nat) returns (ok: bool, finished: bool)
      requires Valid() && c in conns && conns[c].node.Some? && InRange(edges.base, m.weight)
      modifies this`reachable, edges
      ensures finished ==> Valid()
      ensures SearchEnds(fuel) || (Flat() && fuel >= Bound()) ==> finished
      ensures edges.Valid()
      ensures edges.trees.Keys ==
              old(edges.trees.Keys) + (if ok && !old(Ignores(c, m.from, m.to)) then {m.from, m.to} else {})
      ensures ok <==> m.from != m.to
      ensures m.from == myself || !ok || old(Ignores(c, m.from, m.to)) ==>
                edges.All() == old(edges.All()) && reachable == old(reachable) && finished
      ensures ok && m.from != myself && !old(Ignores(c, m.from, m.to)) ==>
                exists e <- edges.All() :: Records(e, m) && LocalKnown(e, m, old(edges.All()))
      ensures forall e <- old(edges.All()) :: KeyOf(e) == (m.from, m.to) || e in edges.All()
      ensures forall e <- edges.All() :: e in old(edges.All()) || (KeyOf(e) == (m.from, m.to) && e.options == m.options)
    {
      hide SsspBfs.Ends, TreesOk, WeightsOk, Holds, ReverseOk, ConnsOk, Items, TwoWayOf, Unique, HasKey, LocalKnown;
      ok, finished := true, true;
      if m.from == m.to {
        return false, true;
      }
      if tunnelserver && m.from != myself && m.from != conns[c].node.value && m.to != myself
         && m.to != conns[c].node.value {
        return;
      }
      NeedNode(m.from);
      NeedNode(m.to);
      var known := edges.Lookup(m.from, m.to);
      if known.Some? {
        var e := known.value;
        var f := Merged(e, m);
        MergedLocal(edges.All(), e, m);
        if e == f {
          return;
        }
        if m.from == myself {
          return;
        }
        KeepConns(conns, active, edges.All(), edges.All() - {e} + {f}, myself);
        edges.Change(e, f);
        assert f in edges.All() && Records(f, m);
      } else if m.from == myself {
        return;
      } else {
        var e := Edge(m.from, m.to, m.weight, m.options, m.address, m.local);
        assert LocalKnown(e, m, edges.All()) by {
          NewLocal(edges.All(), e, m);
        }
        KeepConns(conns, active, edges.All(), edges.All() + {e}, myself);
        edges.Add(e);
        assert e in edges.All() && Records(e, m);
      }
      finished := Graph(fuel);
    }

    /** If `n` is unreachable but had an edge to us, delete that edge. */
    method Forget(n: Name)
      requires Valid() && n in edges.trees
      modifies edges
      ensures Valid() && edges.trees.Keys == old(edges.trees.Keys)
      ensures edges.All() <= old(edges.All())
      ensures forall e <- old(edges.All()) - edges.All() :: KeyOf(e) == (n, myself) && n !in reachable
      ensures n !in reachable ==> !HasKey(edges.All(), (n, myself))
    {
      hide SsspBfs.Ends, TreesOk, WeightsOk, Holds, ReverseOk, ConnsOk, Items, TwoWayOf, Unique, HasKey;
      if n !in reachable {
        var known := edges.Lookup(n, myself);
        if known.Some? {
          var e := known.value;
          StoreUnique(edges.trees, edges.All());
          KeyGone(edges.All(), e);
          DeadEdge(edges.All(), e, myself);
          SelfReachable(TwoWayOf(edges.All()), myself);
          KeepConns(conns, active, edges.All(), edges.All() - {e}, myself);
          edges.Del(e);
        }
      }
    }

    /** del_edge_h, for a message that was not seen before, received over an activated connection. */
    method DelEdge(c: nat, from: Name, to: Name, fuel: nat) returns (ok: bool, finished: bool)
      requires Valid() && c in conns && conns[c].node.Some?
      modifies this`reachable, edges
      ensures finished ==> Valid()
      ensures SearchEnds(fuel) || (Flat() && fuel >= Bound()) ==> finished
      ensures edges.Valid() && edges.trees.Keys == old(edges.trees.Keys)
      ensures ok <==> from != to
      ensures edges.All() <= old(edges.All())
      ensures from == myself || !ok || old(Ignores(c, from, to)) ==>
                edges.All() == old(edges.All()) && reachable == old(reachable) && finished
      ensures forall e <- old(edges.All()) - edges.All() :: KeyOf(e) == (from, to) || KeyOf(e) == (to, myself)
      ensures finished && ok && from != myself && !old(Ignores(c, from, to)) ==> !HasKey(edges.All(), (from, to))
      ensures finished && edges.All() != old(edges.All()) && to !in reachable ==> !HasKey(edges.All(), (to, myself))
    {
      hide SsspBfs.Ends, TreesOk, WeightsOk, Holds, ReverseOk, ConnsOk, Items, TwoWayOf, Unique;
      ok, finished := true, true;
      if from == to {
        return false, true;
      }
      if tunnelserver && from != myself && from != conns[c].node.value && to != myself && to != conns[c].node.value {
        return;
      }
      if from !in edges.trees || to !in edges.trees {
        UnknownEnd(edges.trees, edges.All(), from, to);
        return;
      }
      var known := edges.Lookup(from, to);
      if known.None? {
        return;
      }
      var e := known.value;
      if e.from == myself {
        return;
      }
      StoreUnique(edges.trees, edges.All());
      KeyGone(edges.All(), e);
      KeepConns(conns, active, edges.All(), edges.All() - {e}, myself);
      edges.Del(e);
      finished := Graph(fuel);
      if !finished {
        return;
      }
      Forget(to);
    }

    /** The part of terminate_connection for a connection that has a node and an edge. */
    method CloseActive(c: nat, report: bool, fuel: nat) returns (finished: bool)
      requires Valid() && c in conns && !Inactive(conns[c])
      modifies this`reachable, this`conns, this`active, edges
      ensures finished ==> Valid() && conns == old(conns) - {c} && active == old(active) - {old(conns[c]).name}
      ensures SearchEnds(fuel) || (Flat() && fuel >= Bound()) ==> finished
      ensures edges.Valid() && edges.All() <= old(edges.All()) && edges.trees.Keys == old(edges.trees.Keys)
      ensures var n := old(conns[c]).name;
              forall e <- old(edges.All()) - edges.All() ::
                KeyOf(e) == (myself, n) || (report && KeyOf(e) == (n, myself))
      ensures finished && report && old(conns[c]).name !in reachable ==>
                !HasKey(edges.All(), (old(conns[c]).name, myself))
    {
      hide SsspBfs.Ends, TreesOk, WeightsOk, Holds, ReverseOk, Items, TwoWayOf, Unique, HasKey, ConnsOk;
      var conn := conns[c];
      ConnCase(conns, active, edges.All(), myself, c);
      var n := conn.node.value;
      KnownNode(edges.trees, edges.All(), myself, n);
      StoreUnique(edges.trees, edges.All());
      ghost var all, conns0, active0 := edges.All(), conns, active;
      if n in active && active[n] == c {
        active := active - {n};
      }
      var known := edges.Lookup(conn.edge.value.0, conn.edge.value.1);
      var e := known.value;
      edges.Del(e);
      conns := conns[c := conn.(edge := None)];
      DropConn(conns0, active0, all, myself, c, e);
      finished := Graph(fuel);
      if !finished {
        return;
      }
      conns := conns - {c};
      assert conns == conns0 - {c};
      if report {
        Forget(n);
      }
    }

    /** terminate_connection: its effect on edges, nodes and reachability. */
    method Terminate(c: nat, report: bool, fuel: nat) returns (finished: bool)
      requires Valid() && c in conns
      modifies this`reachable, this`conns, this`active, edges
      ensures finished ==> Valid() && conns == old(conns) - {c}
      ensures SearchEnds(fuel) || (Flat() && fuel >= Bound()) ==> finished
      ensures edges.Valid() && edges.All() <= old(edges.All()) && edges.trees.Keys == old(edges.trees.Keys)
      ensures var n := old(conns[c]).name;
              forall e <- old(edges.All()) - edges.All() ::
                KeyOf(e) == (myself, n) || (report && KeyOf(e) == (n, myself))
      ensures Inactive(old(conns[c])) ==> finished && edges.All() == old(edges.All()) && active == old(active)
      ensures finished && !Inactive(old(conns[c])) ==> active == old(active) - {old(conns[c]).name}
      ensures var n := old(conns[c]).name;
              finished && !Inactive(old(conns[c])) ==>
                && !HasKey(edges.All(), (myself, n))
                && (report && n !in reachable ==> !HasKey(edges.All(), (n, myself)))
    {
      hide SsspBfs.Ends, TreesOk, WeightsOk, Holds, ReverseOk, Items, TwoWayOf, Unique, HasKey, ConnsOk;
      ConnCase(conns, active, edges.All(), myself, c);
      if conns[c].node.Some? {
        ghost var n := conns[c].name;
        finished := CloseActive(c, report, fuel);
        if finished {
          NotActive(conns, active, edges.All(), myself, n);
        }
      } else {
        DropInactive(conns, active, edges.All(), myself, c);
        conns := conns - {c};
        finished := true;
      }
    }

    /** A connection is accepted and authenticated; it is not activated yet. */
    method Connect(c: nat, name: Name)
      requires Valid() && c !in conns
      modifies this`conns
      ensures Valid() && conns == old(conns)[c := Conn(name, None, None)]
    {
      hide HasKey;
      conns := conns[c := Conn(name, None, None)];
    }

    /** The first half of ack_h: the node exists afterwards, and has no connection. */
    method MakeRoom(n: Name, fuel: nat) returns (finished: bool)
      requires Valid()
      modifies this`reachable, this`conns, this`active, edges
      ensures finished ==> Valid() && n in edges.trees && n !in active && active == old(active) - {n}
      ensures SearchEnds(fuel) || (Flat() && fuel >= Bound()) ==> finished
      ensures edges.Valid() && edges.All() <= old(edges.All()) && edges.trees.Keys <= old(edges.trees.Keys) + {n}
      ensures finished ==> conns == old(conns) - (if n in old(active) then {old(active)[n]} else {})
    {
      hide SsspBfs.Ends, TreesOk, WeightsOk, Holds, ReverseOk, Items, TwoWayOf, Unique, HasKey, ConnsOk;
      finished := true;
      if n !in edges.trees {
        UnknownEnd(edges.trees, edges.All(), myself, n);
        NotActive(conns, active, edges.All(), myself, n);
        NeedNode(n);
      } else if n in active {
        ActiveConn(conns, active, edges.All(), myself, n);
        finished := Terminate(active[n], false, fuel);
        if !finished {
          return;
        }
        finished := Graph(fuel);
      }
    }

    /** The second half of ack_h: the connection becomes the one of its node, and gets an edge. */
    method Activate(c: nat, e: Edge, fuel: nat) returns (finished: bool)
      requires Valid() && e.from == myself && e.to != myself && e.to in edges.trees && e.to !in active
               && InRange(edges.base, e.weight)
      requires c in conns ==> Inactive(conns[c]) && conns[c].name == e.to
      modifies this`reachable, this`conns, this`active, edges
      ensures edges.Valid() && myself in edges.trees && (finished ==> reachable == Component())
      ensures edges.All() == old(edges.All()) + {e} && edges.trees.Keys == old(edges.trees.Keys)
      ensures active == old(active)[e.to := c] && conns.Keys == old(conns.Keys)
      ensures ConnsOk(conns, active, edges.All(), myself) <==> c in conns
      ensures finished <==> SearchEnds(fuel)
      ensures SearchEnds(fuel) || (Flat() && fuel >= Bound()) ==> finished
    {
      hide SsspBfs.Ends, TreesOk, WeightsOk, Holds, ReverseOk, Items, TwoWayOf, Unique, HasKey, ConnsOk;
      NotActive(conns, active, edges.All(), myself, e.to);
      if c in conns {
        GainConn(conns, active, edges.All(), myself, c, e);
        conns := conns[c := Conn(e.to, Some(e.to), Some((myself, e.to)))];
      } else {
        Dangling(conns, active, edges.All() + {e}, myself, e.to, c);
      }
      active := active[e.to := c];
      edges.Add(e);
      finished := Graph(fuel);
    }

    /** ack_h: an older connection to the same node gives way, and an edge is made for the new one.
        The daemon is valid afterwards exactly if the connection was not activated before: a second
        ACK on it takes it off the list as its own predecessor, and still makes it the connection
        of its node. */
    method Ack(c: nat, weight: int, estimated: int, options: nat, address: SockAddr, local: SockAddr, fuel: nat)
      returns (finished: bool)
      requires Valid() && c in conns && conns[c].name != myself && InRange(edges.base, Halved(weight + estimated))
      modifies this`reachable, this`conns, this`active, edges
      ensures finished ==> (ConnsOk(conns, active, edges.All(), myself) <==> Inactive(old(conns[c])))
      ensures finished ==> reachable == Component() && (Valid() <==> Inactive(old(conns[c])))
      ensures SearchEnds(fuel) || (Flat() && fuel >= Bound()) ==> finished
      ensures edges.Valid() && edges.trees.Keys <= old(edges.trees.Keys) + {old(conns[c]).name}
      ensures forall e <- edges.All() ::
                e in old(edges.All()) || (KeyOf(e) == (myself, old(conns[c]).name) && e.options == options)
      ensures finished ==> active == old(active)[old(conns[c]).name := c]
      ensures finished ==>
                Edge(myself, old(conns[c]).name, Halved(weight + estimated), options, address, local) in edges.All()
      ensures var n := old(conns[c]).name;
              finished ==> conns.Keys == old(conns.Keys) - (if n in old(active) then {old(active)[n]} else {})
    {
      hide SsspBfs.Ends, TreesOk, WeightsOk, Holds, ReverseOk, Items, TwoWayOf, Unique, HasKey, ConnsOk;
      var n := conns[c].name;
      OwnConn(conns, active, edges.All(), myself, c);
      finished := MakeRoom(n, fuel);
      if !finished {
        return;
      }
      var e := Edge(myself, n, Halved(weight + estimated), options, address, local);
      finished := Activate(c, e, fuel);
      assert e in edges.All();
    }

    /** Delete all edges that leave an unreachable node. */
    method PurgeEdges(n: Name)
      requires Valid() && n in edges.trees && n !in reachable
      modifies edges
      ensures Valid() && edges.trees.Keys == old(edges.trees.Keys) && edges.trees[n] == []
      ensures edges.All() == set e <- old(edges.All()) | e.from != n
    {
      hide SsspBfs.Ends, TreesOk, WeightsOk, Holds, ReverseOk, Items, TwoWayOf, Unique, HasKey, ConnsOk;
      while edges.trees[n] != []
        invariant Valid() && edges.trees.Keys == old(edges.trees.Keys)
        invariant edges.All() <= old(edges.All()) && forall e <- old(edges.All()) - edges.All() :: e.from == n
        decreases edges.All()
      {
        var e := edges.trees[n][0];
        StoreUnique(edges.trees, edges.All());
        OwnEdge(edges.trees, edges.All(), n, e);
        DeadEdge(edges.All(), e, myself);
        SelfReachable(TwoWayOf(edges.All()), myself);
        KeepConns(conns, active, edges.All(), edges.All() - {e}, myself);
        edges.Del(e);
      }
      NoEdges(edges.trees, edges.All(), n);
    }

    /** purge; `names` are the nodes in the order of the node tree, `keep` those that may not be
        deleted. */
    method Purge(names: seq<Name>, keep: set<Name>)
      requires Valid() && (forall n: Name :: n in names <==> n in edges.trees)
               && (forall i, j | 0 <= i < j < |names| :: names[i] != names[j])
      modifies edges
      ensures Valid() && reachable == old(reachable)
      ensures edges.All() == set e <- old(edges.All()) | e.from in reachable
      ensures edges.trees.Keys == old(edges.trees.Keys) - Purgeable(names, reachable, edges.All(), keep)
    {
      hide SsspBfs.Ends, TreesOk, WeightsOk, Holds, ReverseOk, Items, TwoWayOf, Unique, HasKey, ConnsOk;
      for i := 0 to |names|
        invariant Valid() && edges.trees.Keys == old(edges.trees.Keys)
        invariant edges.All() == set e <- old(edges.All()) | e.from in reachable || e.from !in names[..i]
      {
        if names[i] !in reachable {
          PurgeEdges(names[i]);
        }
        assert names[..i + 1] == names[..i] + [names[i]];
      }
      forall e <- edges.All() {
        ProperEdge(edges.trees, edges.All(), e);
      }
      assert names[..|names|] == names;
      PurgeNodes(names, keep);
    }

    /** The second loop of purge: it stops at the first unreachable node that an edge leads to. */
    method PurgeNodes(names: seq<Name>, keep: set<Name>)
      requires Valid() && (forall e <- edges.All() :: e.from in reachable)
      requires (forall n <- names :: n in edges.trees) && (forall i, j | 0 <= i < j < |names| :: names[i] != names[j])
      modifies edges`trees
      ensures Valid() && edges.All() == old(edges.All())
      ensures edges.trees.Keys == old(edges.trees.Keys) - Purgeable(names, reachable, edges.All(), keep)
    {
      hide SsspBfs.Ends, TreesOk, WeightsOk, Holds, ReverseOk, TwoWayOf, Unique, HasKey, ConnsOk;
      assert names[0..] == names;
      for i := 0 to |names|
        invariant Valid() && (forall k | i <= k < |names| :: names[k] in edges.trees)
        invariant edges.trees.Keys - Purgeable(names[i..], reachable, edges.All(), keep)
                  == old(edges.trees.Keys) - Purgeable(names, reachable, edges.All(), keep)
      {
        var n := names[i];
        assert names[i..][1..] == names[i + 1..];
        if n !in reachable {
          for j := 0 to |edges.weights|
            invariant forall k | 0 <= k < j :: edges.weights[k].to != n
          {
            if edges.weights[j].to == n {
              assert edges.weights[j] in edges.All();
              return;
            }
          }
          if n !in keep {
            EmptyTree(edges.trees, edges.All(), n);
            SelfReachable(TwoWayOf(edges.All()), myself);
            edges.DelNode(n);
          }
        }
      }
    }
  }

  /** The nodes purge deletes: going through the list, the unreachable ones that need not be kept, up
      to the first unreachable one that an edge leads to. */
  ghost function Purgeable(names: seq<Name>, reachable: set<Name>, all: set<Edge>, keep: set<Name>): set<Name> {
    if names == [] then {}
    else if names[0] in reachable then Purgeable(names[1..], reachable, all, keep)
    else if exists e <- all :: e.to == names[0] then {}
    else (if names[0] in keep then {} else {names[0]}) + Purgeable(names[1..], reachable, all, keep)
  }

  /** A node is deleted exactly if it is unreachable and need not be kept, and neither to it nor to any
      unreachable node before it leads an edge. */
  lemma {:induction false} PurgeableMeans(names: seq<Name>, reachable: set<Name>, all: set<Edge>, keep: set<Name>,
                                          x: Name)
    ensures x in Purgeable(names, reachable, all, keep) <==>
            exists i | 0 <= i < |names| ::
              && names[i] == x && x !in reachable && x !in keep
              && forall j, e | 0 <= j <= i && names[j] !in reachable && e in all :: e.to != names[j]
    decreases |names|
  {
    if names != [] {
      PurgeableMeans(names[1..], reachable, all, keep, x);
      if x in Purgeable(names, reachable, all, keep) {
        if names[0] == x && x !in reachable && x !in keep && forall e <- all :: e.to != x {
          assert names[0] == x;
        } else {
          var i :| 0 <= i < |names[1..]| && names[1..][i] == x && x !in reachable && x !in keep
                   && forall j, e | 0 <= j <= i && names[1..][j] !in reachable && e in all :: e.to != names[1..][j];
          assert names[i + 1] == x;
          assert forall j | 0 < j <= i + 1 :: names[j] == names[1..][j - 1];
        }
      }
      if i :| 0 <= i < |names| && names[i] == x && x !in reachable && x !in keep
              && forall j, e | 0 <= j <= i && names[j] !in reachable && e in all :: e.to != names[j] {
        if i > 0 {
          assert names[1..][i - 1] == x;
          assert forall j | 0 <= j <= i - 1 :: names[1..][j] == names[j + 1];
        }
      }
    }
  }

  /** What can happen to a daemon. */
  datatype Event =
    | Connected(c: nat, name: Name)
    | Activated(c: nat, weight: int, estimated: int, options: nat, address: SockAddr, local: SockAddr)
    | EdgeAdded(c: nat, message: EdgeMessage)
    | EdgeDeleted(c: nat, from: Name, to: Name)
    | Terminated(c: nat, report: bool)
    | Purged(names: seq<Name>, keep: set<Name>)

  /** The event fits the state: its connection is there and has got that far, its weights can be
      compared, and a purge goes over all nodes. */
  ghost predicate Enabled(d: Daemon, ev: Event)
    reads d, d.edges
  {
    match ev
    case Connected(c, _) => c !in d.conns
    case Activated(c, w, est, _, _, _) =>
      c in d.conns && d.conns[c].name != d.myself && InRange(d.edges.base, Halved(w + est))
    case EdgeAdded(c, m) => c in d.conns && d.conns[c].node.Some? && InRange(d.edges.base, m.weight)
    case EdgeDeleted(c, _, _) => c in d.conns && d.conns[c].node.Some?
    case Terminated(c, _) => c in d.conns
    case Purged(names, _) =>
      (forall n: Name :: n in names <==> n in d.edges.trees)
        && (forall i, j | 0 <= i < j < |names| :: names[i] != names[j])
  }

  /** The edge an event may add, by its ends and its options, and the nodes it may add. */
  ghost function NewEdge(d: Daemon, ev: Event): Option<(Key, nat)>
    requires Enabled(d, ev)
    reads d, d.edges
  {
    match ev
    case Activated(c, _, _, options, _, _) => Some(((d.myself, d.conns[c].name), options))
    case EdgeAdded(_, m) => Some(((m.from, m.to), m.options))
    case _ => None
  }

  /** The store grew by at most one edge with the given ends and options, and by its ends. */
  ghost predicate GrewBy(all: set<Edge>, nodes: set<Name>, all': set<Edge>, nodes': set<Name>,
                         extra: Option<(Key, nat)>) {
    && nodes' <= nodes + (if extra.Some? then {extra.value.0.0, extra.value.0.1} else {})
    && forall e <- all' :: e in all || (extra.Some? && KeyOf(e) == extra.value.0 && e.options == extra.value.1)
  }

  /** A second ACK on a connection. */
  ghost predicate Again(d: Daemon, ev: Event)
    reads d
  {
    ev.Activated? && ev.c in d.conns && !Inactive(d.conns[ev.c])
  }

  ghost predicate Direct(all: set<Edge>) {
    forall e <- all :: !e.Indirect()
  }

  predicate DirectEvent(ev: Event) {
    (ev.Activated? ==> ev.options % 2 == 0) && (ev.EdgeAdded? ==> ev.message.options % 2 == 0)
  }

  /** What one event needs at most if all edges are direct. */
  ghost function EnoughFor(all: set<Edge>, nodes: set<Name>): nat {
    SsspBfs.Enough(|nodes| + 2, |all| + 1)
  }

  lemma Grown(all: set<Edge>, nodes: set<Name>, all': set<Edge>, nodes': set<Name>, extra: Option<(Key, nat)>)
    requires GrewBy(all, nodes, all', nodes', extra) && Unique(all')
    ensures |all'| <= |all| + 1 && |nodes'| <= |nodes| + 2
    ensures SsspBfs.Enough(|nodes'|, |TwoWayOf(all')|) <= EnoughFor(all, nodes)
    ensures Direct(all) && (extra.Some? ==> extra.value.1 % 2 == 0) ==> Direct(all')
  {
    OneMore(all, all', extra);
    TwoMore(nodes, nodes', extra);
    SsspBfs.SubsetSize(TwoWayOf(all'), all');
    hide SsspBfs.Enough, TwoWayOf, Unique;
    SsspBfs.EnoughGrows(|nodes'|, |TwoWayOf(all')|, |nodes| + 2, |all| + 1);
  }

  lemma OneMore(all: set<Edge>, all': set<Edge>, extra: Option<(Key, nat)>)
    requires Unique(all') && forall e <- all' ::
               e in all || (extra.Some? && KeyOf(e) == extra.value.0 && e.options == extra.value.1)
    ensures |all'| <= |all| + 1
  {
    if e :| e in all' && e !in all {
      SsspBfs.SubsetSize(all', all + {e});
    } else {
      SsspBfs.SubsetSize(all', all);
    }
  }

  lemma TwoMore(nodes: set<Name>, nodes': set<Name>, extra: Option<(Key, nat)>)
    requires nodes' <= nodes + (if extra.Some? then {extra.value.0.0, extra.value.0.1} else {})
    ensures |nodes'| <= |nodes| + 2
  {
    if extra.Some? {
      SsspBfs.SubsetSize(nodes', nodes + {extra.value.0.0} + {extra.value.0.1});
    } else {
      SsspBfs.SubsetSize(nodes', nodes);
    }
  }

  /** The handler of an event. */
  method Handle(d: Daemon, ev: Event, fuel: nat) returns (finished: bool)
    requires d.Valid() && Enabled(d, ev)
    modifies d, d.edges
    ensures finished ==> d.reachable == d.Component() && (d.Valid() <==> !old(Again(d, ev)))
    ensures d.edges.Valid()
    ensures d.SearchEnds(fuel) || (d.Flat() && fuel >= d.Bound()) ==> finished
    ensures GrewBy(old(d.edges.All()), old(d.edges.trees.Keys), d.edges.All(), d.edges.trees.Keys, old(NewEdge(d, ev)))
  {
    hide SsspBfs.Ends, TreesOk, WeightsOk, Holds, ReverseOk, Items, TwoWayOf, Unique, HasKey, ConnsOk;
    finished := true;
    match ev {
      case Connected(c, name) =>
        d.Connect(c, name);
      case Activated(c, weight, estimated, options, address, local) =>
        finished := d.Ack(c, weight, estimated, options, address, local, fuel);
      case EdgeAdded(c, message) =>
        var ok;
        ok, finished := d.AddEdge(c, message, fuel);
      case EdgeDeleted(c, from, to) =>
        var ok;
        ok, finished := d.DelEdge(c, from, to, fuel);
      case Terminated(c, report) =>
        finished := d.Terminate(c, report, fuel);
      case Purged(names, keep) =>
        d.Purge(names, keep);
    }
  }

  /** One event: if every edge is direct, the search for routes ends, edges stay direct, and the
      daemon is valid again unless the event was a second ACK on a connection. */
  method Step(d: Daemon, ev: Event, fuel: nat) returns (finished: bool)
    requires d.Valid() && Enabled(d, ev)
    modifies d, d.edges
    ensures finished ==> d.edges.Valid() && d.reachable == d.Component() && (d.Valid() <==> !old(Again(d, ev)))
    ensures d.SearchEnds(fuel) || (d.Flat() && fuel >= d.Bound()) ==> finished
    ensures Direct(old(d.edges.All())) && DirectEvent(ev) ==> Direct(d.edges.All())
    ensures Direct(old(d.edges.All())) && DirectEvent(ev) ==>
              fuel >= EnoughFor(old(d.edges.All()), old(d.edges.trees.Keys)) ==> finished
    ensures |d.edges.All()| <= |old(d.edges.All())| + 1 && |d.edges.trees.Keys| <= |old(d.edges.trees.Keys)| + 2
  {
    hide SsspBfs.Ends, TreesOk, WeightsOk, Holds, ReverseOk, Items, TwoWayOf, Unique, HasKey, ConnsOk, Direct, GrewBy;
    finished := Handle(d, ev, fuel);
    StoreUnique(d.edges.trees, d.edges.All());
    Grown(old(d.edges.All()), old(d.edges.trees.Keys), d.edges.All(), d.edges.trees.Keys, old(NewEdge(d, ev)));
    DirectLinks(d.edges.All());
  }

  /** A run with a second ACK: a new daemon that gets one connection, and two ACKs over it, ends up
      with a connection of the other node that is not on the list, and an edge for it. */
  method SecondAck(myself: Name, n: Name, c: nat, address: SockAddr, local: SockAddr, fuel: nat)
    returns (d: Daemon, finished: bool)
    requires myself != n
    ensures fuel >= 3 ==> finished
    ensures finished ==> d.edges.Valid() && d.reachable == d.Component() && !d.Valid()
    ensures finished ==> n in d.active && d.active[n] !in d.conns && HasKey(d.edges.All(), (myself, n))
  {
    hide SsspBfs.Ends, TreesOk, WeightsOk, Holds, ReverseOk, Items, TwoWayOf, Unique, ConnsOk;
    d := new Daemon(myself, false, 0);
    d.Connect(c, n);
    finished := d.Ack(c, 0, 0, 0, address, local, fuel);
    OneWay(d.edges.All(), d.edges.trees.Keys, myself, n);
    if finished {
      OwnConn(d.conns, d.active, d.edges.All(), myself, c);
      ActiveConn(d.conns, d.active, d.edges.All(), myself, n);
      finished := d.Ack(c, 0, 0, 0, address, local, fuel);
      OneWay(d.edges.All(), d.edges.trees.Keys, myself, n);
    }
  }

  lemma OneWay(all: set<Edge>, nodes: set<Name>, myself: Name, n: Name)
    requires myself != n && nodes <= {myself, n} && forall e <- all :: KeyOf(e) == (myself, n)
    ensures TwoWayOf(all) == {} && SsspBfs.Enough(|nodes|, |TwoWayOf(all)|) <= 3
  {
    assert TwoWayOf(all) == {};
    SsspBfs.SubsetSize(nodes, {myself, n});
    SsspBfs.EnoughGrows(|nodes|, 0, 2, 0);
  }

  lemma DirectLinks(all: set<Edge>)
    ensures Direct(all) ==> forall e <- TwoWayOf(all) :: !e.Indirect()
  {
  }

  lemma MergedLocal(all: set<Edge>, e: Edge, m: EdgeMessage)
    requires e in all && KeyOf(e) == (m.from, m.to)
    ensures Records(Merged(e, m), m) && LocalKnown(Merged(e, m), m, all)
  {
  }

  lemma NewLocal(all: set<Edge>, e: Edge, m: EdgeMessage)
    requires !HasKey(all, KeyOf(e)) && e.local == m.local
    ensures LocalKnown(e, m, all)
  {
  }

  lemma OwnEdge(trees: map<Name, seq<Edge>>, all: set<Edge>, n: Name, e: Edge)
    requires TreesOk(trees) && Holds(trees, all) && n in trees && e in trees[n]
    ensures e in all && e.from == n
  {
    assert TreeOk(n, trees.Keys, trees[n]);
  }

  lemma NoEdges(trees: map<Name, seq<Edge>>, all: set<Edge>, n: Name)
    requires Holds(trees, all) && n in trees && trees[n] == []
    ensures forall e <- all :: e.from != n
  {
  }

  lemma EmptyTree(trees: map<Name, seq<Edge>>, all: set<Edge>, n: Name)
    requires TreesOk(trees) && Holds(trees, all) && n in trees && forall e <- all :: e.from != n
    ensures trees[n] == []
  {
    var t := trees[n];
    assert TreeOk(n, trees.Keys, t);
    assert forall e: Edge :: e in t ==> e.from == n && e in all;
    EmptyOrNot(t);
  }

  lemma EmptyOrNot(t: seq<Edge>)
    ensures t == [] || exists e: Edge :: e in t
  {
    if t != [] {
      assert t[0] in t;
    }
  }

  /** The division of C, which truncates towards zero. */
  function Halved(x: int): (r: int)
    ensures (x >= 0 ==> 0 <= x - 2 * r <= 1) && (x <= 0 ==> -1 <= x - 2 * r <= 0)
  {
    if x >= 0 then x / 2 else -(-x / 2)
  }

  lemma NotActive(conns: map<nat, Conn>, active: map<Name, nat>, all: set<Edge>, myself: Name, n: Name)
    requires ConnsOk(conns, active, all, myself)
    ensures n in active <==> HasKey(all, (myself, n))
  {
  }

  lemma ActiveConn(conns: map<nat, Conn>, active: map<Name, nat>, all: set<Edge>, myself: Name, n: Name)
    requires ConnsOk(conns, active, all, myself) && n in active
    ensures active[n] in conns && conns[active[n]].name == n && !Inactive(conns[active[n]])
  {
  }

  /** A connection is activated exactly if it is the one of its node. */
  lemma OwnConn(conns: map<nat, Conn>, active: map<Name, nat>, all: set<Edge>, myself: Name, c: nat)
    requires ConnsOk(conns, active, all, myself) && c in conns
    ensures var n := conns[c].name;
            Inactive(conns[c]) <==> !(n in active && active[n] == c)
  {
  }

  /** A node's connection that is not on the list. */
  lemma Dangling(conns: map<nat, Conn>, active: map<Name, nat>, all: set<Edge>, myself: Name, n: Name, c: nat)
    requires c !in conns
    ensures !ConnsOk(conns, active[n := c], all, myself)
  {
    assert n in active[n := c].Keys;
  }

  lemma GainConn(conns: map<nat, Conn>, active: map<Name, nat>, all: set<Edge>, myself: Name, c: nat, e: Edge)
    requires ConnsOk(conns, active, all, myself) && c in conns && Inactive(conns[c]) && conns[c].name !in active
    requires KeyOf(e) == (myself, conns[c].name)
    ensures var n := conns[c].name;
            ConnsOk(conns[c := Conn(n, Some(n), Some((myself, n)))], active[n := c], all + {e}, myself)
  {
    forall m: Name
      ensures HasKey(all + {e}, (myself, m)) <==> HasKey(all, (myself, m)) || m == conns[c].name
    {
      KeyAdded(all, e, (myself, m));
    }
  }

  lemma ConnCase(conns: map<nat, Conn>, active: map<Name, nat>, all: set<Edge>, myself: Name, c: nat)
    requires ConnsOk(conns, active, all, myself) && c in conns
    ensures Inactive(conns[c]) || (conns[c].name in active && active[conns[c].name] == c
                                   && conns[c] == Conn(conns[c].name, Some(conns[c].name),
                                                       Some((myself, conns[c].name)))
                                   && HasKey(all, (myself, conns[c].name)))
  {
  }

  lemma KnownNode(trees: map<Name, seq<Edge>>, all: set<Edge>, myself: Name, n: Name)
    requires TreesOk(trees) && Holds(trees, all) && HasKey(all, (myself, n))
    ensures n in trees && n != myself
  {
    var e :| e in all && KeyOf(e) == (myself, n);
    ProperEdge(trees, all, e);
  }

  lemma DropConn(conns: map<nat, Conn>, active: map<Name, nat>, all: set<Edge>, myself: Name, c: nat, e: Edge)
    requires ConnsOk(conns, active, all, myself) && c in conns && Unique(all) && e in all
    requires conns[c].name in active && active[conns[c].name] == c && KeyOf(e) == (myself, conns[c].name)
    ensures ConnsOk(conns - {c}, active - {conns[c].name}, all - {e}, myself)
  {
    var n := conns[c].name;
    forall m: Name
      ensures HasKey(all - {e}, (myself, m)) <==> HasKey(all, (myself, m)) && m != n
    {
      KeyRemoved(all, e, (myself, m));
    }
  }

  lemma DropInactive(conns: map<nat, Conn>, active: map<Name, nat>, all: set<Edge>, myself: Name, c: nat)
    requires ConnsOk(conns, active, all, myself) && c in conns && Inactive(conns[c])
    ensures ConnsOk(conns - {c}, active, all, myself)
  {
  }

  lemma SelfReachable(es: set<Edge>, myself: Name)
    ensures myself in Cuts.Component(es, myself)
  {
    Cuts.ComponentClosed(es, myself);
  }

  lemma UnknownEnd(trees: map<Name, seq<Edge>>, all: set<Edge>, from: Name, to: Name)
    requires TreesOk(trees) && Holds(trees, all) && (from !in trees || to !in trees)
    ensures !HasKey(all, (from, to))
  {
    forall e | e in all
      ensures KeyOf(e) != (from, to)
    {
      ProperEdge(trees, all, e);
    }
  }

  lemma Alone(myself: Name)
    ensures Cuts.Component({}, myself) == {myself}
  {
    Cuts.ComponentUnique({}, myself, {myself});
  }

  lemma Visited(net: Sssp.Net, r: Sssp.Routes)
    requires SsspBfs.RoutesOk(net, r)
    ensures r.Keys == Cuts.Component(net.Links(), net.myself)
  {
  }

  /** Edges of other nodes do not matter to the connections. */
  lemma KeepConns(conns: map<nat, Conn>, active: map<Name, nat>, all: set<Edge>, all': set<Edge>, myself: Name)
    requires ConnsOk(conns, active, all, myself)
    requires forall e: Edge | e.from == myself :: e in all <==> e in all'
    ensures ConnsOk(conns, active, all', myself)
  {
    forall n: Name
      ensures HasKey(all, (myself, n)) <==> HasKey(all', (myself, n))
    {
      if HasKey(all, (myself, n)) {
        var e :| e in all && KeyOf(e) == (myself, n);
        assert e in all';
      }
      if HasKey(all', (myself, n)) {
        var e :| e in all' && KeyOf(e) == (myself, n);
        assert e in all;
      }
    }
  }
}
