/** Flooding over a spanning tree: every node forwards to its tree neighbours except the one
    it got the packet from.  Deliveries happen in any order. */
module Flooding {
  import opened Names
  import opened Edges
  import opened Cuts

  /** A copy of the packet under way from one node to another. */
  type Message = (Name, Name)

  predicate Joins(e: Edge, a: Name, b: Name) {
    (e.from == a && e.to == b) || (e.from == b && e.to == a)
  }

  ghost predicate Linked(tree: set<Edge>, a: Name, b: Name) {
    exists e :: e in tree && Joins(e, a, b)
  }

  /** The nodes that a tree edge joins to `n`. */
  ghost function Neighbours(tree: set<Edge>, n: Name): (s: set<Name>)
    ensures forall x :: x in s <==> Linked(tree, n, x)
  {
    var s := (set e | e in tree && e.from == n :: e.to) + (set e | e in tree && e.to == n :: e.from);
    assert forall e | e in tree && e.from == n :: Joins(e, n, e.to);
    assert forall e | e in tree && e.to == n :: Joins(e, n, e.from);
    s
  }

  /** Tree edges with both ends in `s`. */
  ghost function Inner(tree: set<Edge>, s: set<Name>): set<Edge> {
    set e | e in tree && e.from in s && e.to in s
  }

  /** No part of a spanning tree has more edges than nodes less one. */
  lemma {:induction false} InnerBound(tree: set<Edge>, v: set<Name>, s: set<Name>)
    requires SpanningTree(tree, v) && s <= v && s != {}
    ensures |Inner(tree, s)| <= |s| - 1
    decreases v - s
  {
    if s == v {
      assert Inner(tree, s) == tree;
    } else {
      assert !Closed(tree, s);
      var e :| e in tree && (e.from in s) != (e.to in s);
      var x := if e.from in s then e.to else e.from;
      assert e.from in v && e.to in v;
      var s' := s + {x};
      assert x in v - s && x !in v - s';
      assert e in Inner(tree, s') && e !in Inner(tree, s);
      InnerBound(tree, v, s');
      assert Inner(tree, s) + {e} <= Inner(tree, s');
      SubsetSize(Inner(tree, s) + {e}, Inner(tree, s'));
    }
  }

  lemma SubsetSize<T>(a: set<T>, b: set<T>)
    requires a <= b
    ensures |a| <= |b|
  {
    assert b == a + (b - a);
  }

  /** A connected part of the tree is joined to an outside node by one edge at most. */
  lemma OneEdgeIn(tree: set<Edge>, v: set<Name>, done: set<Name>, b: Name, e1: Edge, e2: Edge)
    requires SpanningTree(tree, v) && done <= v && done != {} && b in v - done
    requires |Inner(tree, done)| == |done| - 1
    requires e1 in Inner(tree, done + {b}) - Inner(tree, done)
    requires e2 in Inner(tree, done + {b}) - Inner(tree, done)
    ensures e1 == e2
  {
    InnerBound(tree, v, done + {b});
    if e1 != e2 {
      assert Inner(tree, done) + {e1, e2} <= Inner(tree, done + {b});
      SubsetSize(Inner(tree, done) + {e1, e2}, Inner(tree, done + {b}));
      assert false;
    }
  }

  /** The messages that must be under way when exactly the nodes in `done` have the packet. */
  ghost function Frontier(tree: set<Edge>, done: set<Name>): (s: set<Message>)
    ensures forall a, b :: (a, b) in s <==> a in done && b !in done && Linked(tree, a, b)
  {
    var s := (set e | e in tree && e.from in done && e.to !in done :: (e.from, e.to)) +
             (set e | e in tree && e.to in done && e.from !in done :: (e.to, e.from));
    assert forall e | e in tree :: Joins(e, e.from, e.to) && Joins(e, e.to, e.from);
    s
  }

  /** The messages a node sends when it forwards to the nodes in `out`. */
  function Sent(n: Name, out: seq<Name>): seq<Message> {
    seq(|out|, i requires 0 <= i < |out| => (n, out[i]))
  }

  /** What a node forwards: each tree neighbour once, except the sender. */
  ghost predicate ForwardsOn(tree: set<Edge>, n: Name, from: Name, out: seq<Name>) {
    && (forall i, j | 0 <= i < j < |out| :: out[i] != out[j])
    && (set x | x in out) == Neighbours(tree, n) - {from}
  }

  /** The packet's progress: messages under way, and which nodes wrote how many copies of it. */
  datatype Flood = Flood(inflight: multiset<Message>, copies: multiset<Name>)

  /** The origin hands out the first copies and keeps none. */
  function Begin(origin: Name, out: seq<Name>): Flood {
    Flood(multiset(Sent(origin, out)), multiset{})
  }

  /** Some message arrives; the receiver writes a copy and forwards. */
  predicate Deliver(f: Flood, f': Flood, m: Message, out: seq<Name>) {
    && m in f.inflight
    && f' == Flood(f.inflight - multiset{m} + multiset(Sent(m.1, out)), f.copies + multiset{m.1})
  }

  /** Exactly the nodes in `done` have the packet, each but the origin wrote it once, and
      exactly the messages from `done` to the rest are under way, each once. */
  ghost predicate Spread(tree: set<Edge>, v: set<Name>, origin: Name, done: set<Name>, f: Flood) {
    && origin in done && done <= v
    && |Inner(tree, done)| == |done| - 1
    && f.copies == multiset(done - {origin})
    && f.inflight == multiset(Frontier(tree, done))
  }

  lemma {:induction false} SentOnce(n: Name, out: seq<Name>)
    requires forall i, j | 0 <= i < j < |out| :: out[i] != out[j]
    ensures multiset(Sent(n, out)) == multiset(set x | x in out :: (n, x))
    decreases |out|
  {
    if out == [] {
      assert Sent(n, out) == [];
      assert (set x | x in out :: (n, x)) == {};
    } else {
      var k := |out| - 1;
      SentOnce(n, out[..k]);
      assert Sent(n, out) == Sent(n, out[..k]) + [(n, out[k])];
      assert out == out[..k] + [out[k]];
      var s := set x | x in out[..k] :: (n, x);
      assert (set x | x in out :: (n, x)) == s + {(n, out[k])};
      assert (n, out[k]) !in s;
    }
  }

  lemma BeginSpread(tree: set<Edge>, v: set<Name>, origin: Name, out: seq<Name>)
    requires SpanningTree(tree, v) && origin in v && ForwardsOn(tree, origin, origin, out)
    ensures Spread(tree, v, origin, {origin}, Begin(origin, out))
  {
    InnerBound(tree, v, {origin});
    SentOnce(origin, out);
    var sent := set x | x in out :: (origin, x);
    assert forall x :: x in out <==> x in (set y | y in out);
    forall m
      ensures m in sent <==> m in Frontier(tree, {origin})
    {
      assert m in sent <==> m.0 == origin && m.1 in Neighbours(tree, origin) - {origin};
    }
  }

  /** Delivering any message spreads the packet by one node. */
  lemma DeliverSpread(tree: set<Edge>, v: set<Name>, origin: Name, done: set<Name>, f: Flood, f': Flood, m: Message,
                      out: seq<Name>)
    requires SpanningTree(tree, v) && Spread(tree, v, origin, done, f)
    requires Deliver(f, f', m, out) && ForwardsOn(tree, m.1, m.0, out)
    ensures m.1 in v - done
    ensures Spread(tree, v, origin, done + {m.1}, f')
  {
    var (a, b) := m;
    assert (a, b) in Frontier(tree, done);
    var e :| e in tree && Joins(e, a, b);
    assert e.from in v && e.to in v;
    InnerGrows(tree, v, done, b, e);
    assert done + {b} - {origin} == done - {origin} + {b};
    FrontierMoves(tree, v, done, a, b, e, out);
    SentOnce(b, out);
  }

  lemma InnerGrows(tree: set<Edge>, v: set<Name>, done: set<Name>, b: Name, e: Edge)
    requires SpanningTree(tree, v) && done <= v && done != {} && b in v - done
    requires |Inner(tree, done)| == |done| - 1
    requires e in tree && e in Inner(tree, done + {b}) - Inner(tree, done)
    ensures Inner(tree, done + {b}) == Inner(tree, done) + {e}
    ensures |Inner(tree, done + {b})| == |done + {b}| - 1
  {
    forall x | x in Inner(tree, done + {b})
      ensures x in Inner(tree, done) + {e}
    {
      if x !in Inner(tree, done) {
        OneEdgeIn(tree, v, done, b, x, e);
      }
    }
  }

  lemma NoSelfLink(tree: set<Edge>, v: set<Name>, b: Name)
    requires SpanningTree(tree, v) && b in v
    ensures !Linked(tree, b, b)
  {
    InnerBound(tree, v, {b});
    assert Inner(tree, {b}) == {};
    assert forall e | e in tree && Joins(e, b, b) :: e in Inner(tree, {b});
  }

  lemma FrontierMembers(tree: set<Edge>, done: set<Name>, a: Name, b: Name, sent: set<Message>)
    requires a in done && b !in done && Linked(tree, a, b) && !Linked(tree, b, b)
    requires forall x | x in done && Linked(tree, x, b) :: x == a
    requires forall x :: Linked(tree, b, x) <==> Linked(tree, x, b)
    requires forall x, y :: (x, y) in sent <==> x == b && y != a && Linked(tree, b, y)
    ensures Frontier(tree, done + {b}) == Frontier(tree, done) - {(a, b)} + sent
  {
    hide Linked;
    forall m: Message
      ensures m in Frontier(tree, done + {b}) <==> m in Frontier(tree, done) - {(a, b)} + sent
    {
      var (x, y) := m;
      assert y == b && (x, y) in Frontier(tree, done) ==> x == a;
    }
  }

  /** The frontier loses the message to `b` and gains those to the other neighbours of `b`. */
  lemma FrontierMoves(tree: set<Edge>, v: set<Name>, done: set<Name>, a: Name, b: Name, e: Edge, out: seq<Name>)
    requires SpanningTree(tree, v) && done <= v && a in done && b in v - done
    requires |Inner(tree, done)| == |done| - 1
    requires e in tree && Joins(e, a, b)
    requires ForwardsOn(tree, b, a, out)
    ensures var sent := set x | x in out :: (b, x);
            && (a, b) in Frontier(tree, done)
            && sent !! Frontier(tree, done)
            && Frontier(tree, done + {b}) == Frontier(tree, done) - {(a, b)} + sent
  {
    var sent := set x | x in out :: (b, x);
    var nbrs := set x | x in out;
    assert forall x, y :: (x, y) in sent <==> x == b && y in nbrs;
    forall x | x in done && Linked(tree, x, b)
      ensures x == a
    {
      var e' :| e' in tree && Joins(e', x, b);
      OneEdgeIn(tree, v, done, b, e', e);
    }
    assert forall x :: Linked(tree, b, x) <==> Linked(tree, x, b);
    NoSelfLink(tree, v, b);
    FrontierMembers(tree, done, a, b, sent);
  }

  /** A run: `run[i + 1]` results from delivering the message `ms[i]`, which its receiver
      forwards to the nodes in `outs[i]`. */
  ghost predicate Run(tree: set<Edge>, origin: Name, out: seq<Name>, run: seq<Flood>, ms: seq<Message>,
                      outs: seq<seq<Name>>) {
    && |run| == |ms| + 1 && |outs| == |ms|
    && ForwardsOn(tree, origin, origin, out) && run[0] == Begin(origin, out)
    && forall i | 0 <= i < |ms| ::
         Deliver(run[i], run[i + 1], ms[i], outs[i]) && ForwardsOn(tree, ms[i].1, ms[i].0, outs[i])
  }

  lemma {:induction false} RunSpread(tree: set<Edge>, v: set<Name>, origin: Name, out: seq<Name>,
                                     run: seq<Flood>, ms: seq<Message>, outs: seq<seq<Name>>, i: nat)
    returns (done: set<Name>)
    requires SpanningTree(tree, v) && origin in v && Run(tree, origin, out, run, ms, outs) && i < |run|
    ensures Spread(tree, v, origin, done, run[i]) && |done| == i + 1
    decreases i
  {
    if i == 0 {
      done := {origin};
      BeginSpread(tree, v, origin, out);
    } else {
      var before := RunSpread(tree, v, origin, out, run, ms, outs, i - 1);
      assert Deliver(run[i - 1], run[i - 1 + 1], ms[i - 1], outs[i - 1]);
      DeliverSpread(tree, v, origin, before, run[i - 1], run[i], ms[i - 1], outs[i - 1]);
      done := before + {ms[i - 1].1};
    }
  }

  /** Exactly once, whatever the order of deliveries: no node ever writes a second copy and the
      origin writes none, the flood stops after one delivery per other node, and it does not
      stop earlier. */
  lemma FloodExactlyOnce(tree: set<Edge>, v: set<Name>, origin: Name, out: seq<Name>,
                         run: seq<Flood>, ms: seq<Message>, outs: seq<seq<Name>>)
    requires SpanningTree(tree, v) && origin in v && Run(tree, origin, out, run, ms, outs)
    ensures var last := run[|run| - 1];
            && (forall n :: last.copies[n] <= 1 && (n !in v - {origin} ==> last.copies[n] == 0))
            && |ms| <= |v| - 1
            && (last.inflight == multiset{} <==> |ms| == |v| - 1)
            && (last.inflight == multiset{} <==> last.copies == multiset(v - {origin}))
  {
    var last := run[|run| - 1];
    var done := RunSpread(tree, v, origin, out, run, ms, outs, |ms|);
    SubsetSize(done, v);
    if last.inflight == multiset{} {
      assert Frontier(tree, done) == {} by {
        assert forall m :: m in Frontier(tree, done) <==> m in last.inflight;
      }
      assert Closed(tree, done) by {
        forall e | e in tree
          ensures e.from in done <==> e.to in done
        {
          assert Joins(e, e.from, e.to) && Joins(e, e.to, e.from);
          assert (e.from, e.to) !in Frontier(tree, done) && (e.to, e.from) !in Frontier(tree, done);
        }
      }
      assert done == v;
    } else {
      var m :| m in last.inflight;
      assert m in Frontier(tree, done);
      var e :| e in tree && Joins(e, m.0, m.1);
      assert m.1 in v - done;
      SubsetSize(done + {m.1}, v);
      assert last.copies[m.1] == 0;
    }
  }
}
