/** The broadcast tree: mst_kruskal of src/graph.c.

The source scans the weight-sorted edge list, adds an edge whenever exactly one
of its ends has been visited, and goes back to the head of the list when it had
skipped something.  `Grow` is the reference: repeatedly take the first two-way
edge that leaves the visited set.
*/
module Mst {
  import opened Names
  import opened Edges
  import opened Cuts

  /** The edge has a reverse and exactly one visited end. */
  predicate Candidate(e: Edge, rev: set<Key>, s: set<Name>) {
    KeyOf(e) in rev && Crosses(e, s)
  }

  /** Edges that have a reverse. */
  function TwoWay(edges: seq<Edge>, rev: set<Key>): set<Edge> {
    set e | e in edges && KeyOf(e) in rev
  }

  /** Positions of edges with an unvisited end: what is left to do. */
  ghost function Pending(edges: seq<Edge>, s: set<Name>): set<int> {
    set i | 0 <= i < |edges| && !(edges[i].from in s && edges[i].to in s)
  }

  lemma PendingShrinks(edges: seq<Edge>, s: set<Name>, k: nat)
    requires k < |edges| && Crosses(edges[k], s)
    ensures Pending(edges, s + {edges[k].from, edges[k].to}) < Pending(edges, s)
  {
    assert k in Pending(edges, s);
    assert k !in Pending(edges, s + {edges[k].from, edges[k].to});
  }

  /** The first candidate at or after position `i`, or the end of the list. */
  function First(edges: seq<Edge>, rev: set<Key>, s: set<Name>, i: nat): (k: nat)
    requires i <= |edges|
    ensures i <= k <= |edges|
    ensures forall j | i <= j < k :: !Candidate(edges[j], rev, s)
    ensures k < |edges| ==> Candidate(edges[k], rev, s)
    decreases |edges| - i
  {
    if i == |edges| || Candidate(edges[i], rev, s) then i else First(edges, rev, s, i + 1)
  }

  /** Take the first candidate, visit its ends, repeat. */
  function Grow(edges: seq<Edge>, rev: set<Key>, s: set<Name>): (tree: seq<Edge>)
    decreases Pending(edges, s)
  {
    var k := First(edges, rev, s, 0);
    if k == |edges| then []
    else
      PendingShrinks(edges, s, k);
      [edges[k]] + Grow(edges, rev, s + {edges[k].from, edges[k].to})
  }

  /** Both ends of every edge of the tree. */
  function EndsOf(tree: seq<Edge>): set<Name> {
    if tree == [] then {}
    else
      var e := tree[|tree| - 1];
      EndsOf(tree[..|tree| - 1]) + {e.from, e.to}
  }

  function Elements(tree: seq<Edge>): set<Edge> {
    set e | e in tree
  }

  /** The starting point: the from-end of the lightest edge that leaves a reachable node. */
  function Start(edges: seq<Edge>, reachable: set<Name>): (s: set<Name>)
    ensures s == {} <==> forall e <- edges :: e.from !in reachable
    ensures forall n <- s :: n in reachable && s == {n}
    ensures forall i | 0 <= i < |edges| && edges[i].from in reachable
            && (forall j | 0 <= j < i :: edges[j].from !in reachable) ::
              s == {edges[i].from}
  {
    if edges == [] then {}
    else if edges[0].from in reachable then {edges[0].from}
    else Start(edges[1..], reachable)
  }

  /** The connection of an edge, if it has one. */
  function ConnectionOf(k: Key, connections: map<Key, nat>): set<nat> {
    if k in connections then {connections[k]} else {}
  }

  /** The connections that carry an edge of the tree, in either direction. */
  function MstConnections(tree: seq<Edge>, connections: map<Key, nat>): set<nat> {
    if tree == [] then {}
    else
      var e := tree[|tree| - 1];
      MstConnections(tree[..|tree| - 1], connections) +
      ConnectionOf(KeyOf(e), connections) + ConnectionOf(Flip(KeyOf(e)), connections)
  }

  method FindStart(edges: seq<Edge>, reachable: set<Name>) returns (visited: set<Name>)
    ensures visited == Start(edges, reachable)
  {
    visited := {};
    var i := 0;
    while i < |edges|
      invariant 0 <= i <= |edges|
      invariant visited == {}
      invariant Start(edges, reachable) == Start(edges[i..], reachable)
    {
      if edges[i].from in reachable {
        visited := {edges[i].from};
        break;
      }
      i := i + 1;
    }
  }

  /** Set the mst flag of the connections of an edge and of its reverse. */
  method MarkConnections(mst: set<nat>, e: Edge, connections: map<Key, nat>) returns (mst': set<nat>)
    ensures mst' == mst + ConnectionOf(KeyOf(e), connections) + ConnectionOf(Flip(KeyOf(e)), connections)
  {
    mst' := mst;
    if KeyOf(e) in connections {
      mst' := mst' + {connections[KeyOf(e)]};
    }
    if Flip(KeyOf(e)) in connections {
      mst' := mst' + {connections[Flip(KeyOf(e))]};
    }
  }

  /** Nothing before `next` is a candidate, and without a skip all of it lies inside the visited set. */
  ghost predicate Scanned(edges: seq<Edge>, rev: set<Key>, visited: set<Name>, next: nat, skipped: bool)
    requires next <= |edges|
  {
    && (forall j | 0 <= j < next :: !Candidate(edges[j], rev, visited))
    && (!skipped ==> forall j | 0 <= j < next :: edges[j].from in visited && edges[j].to in visited)
  }

  lemma ScannedAdd(edges: seq<Edge>, rev: set<Key>, visited: set<Name>, next: nat)
    requires next < |edges|
    requires Scanned(edges, rev, visited, next, false)
    ensures Scanned(edges, rev, visited + {edges[next].from, edges[next].to}, next + 1, false)
  {
  }

  lemma ScannedSkip(edges: seq<Edge>, rev: set<Key>, visited: set<Name>, next: nat, skipped: bool)
    requires next < |edges| && !Candidate(edges[next], rev, visited)
    requires Scanned(edges, rev, visited, next, skipped)
    ensures Scanned(edges, rev, visited, next + 1, true)
  {
  }

  lemma ScannedAll(edges: seq<Edge>, rev: set<Key>, visited: set<Name>, skipped: bool)
    requires Scanned(edges, rev, visited, |edges|, skipped)
    ensures Grow(edges, rev, visited) == []
  {
  }

  lemma ScannedNone(edges: seq<Edge>, rev: set<Key>, visited: set<Name>)
    ensures Scanned(edges, rev, visited, 0, false)
  {
  }

  /** mst_kruskal: clear the flags, pick a starting point, scan with restarts. */
  method MstKruskal(edges: seq<Edge>, rev: set<Key>, reachable: set<Name>, connections: map<Key, nat>)
    returns (visited: set<Name>, mst: set<nat>, ghost tree: seq<Edge>)
    ensures visited == Start(edges, reachable) + EndsOf(Grow(edges, rev, Start(edges, reachable)))
    ensures mst == MstConnections(Grow(edges, rev, Start(edges, reachable)), connections)
    ensures tree == Grow(edges, rev, Start(edges, reachable))
  {
    hide Start, ConnectionOf, Scanned, Grow, EndsOf, MstConnections, Pending;
    ghost var grown := Grow(edges, rev, Start(edges, reachable));
    mst, tree := {}, [];
    visited := FindStart(edges, reachable);
    var skipped, next := false, 0;
    ScannedNone(edges, rev, visited);
    TreeNone(connections);
    while next < |edges|
      invariant 0 <= next <= |edges|
      invariant Scanned(edges, rev, visited, next, skipped)
      invariant grown == tree + Grow(edges, rev, visited)
      invariant visited == Start(edges, reachable) + EndsOf(tree)
      invariant mst == MstConnections(tree, connections)
      decreases Pending(edges, visited), |edges| - next
    {
      var e := edges[next];
      next := next + 1;
      if KeyOf(e) !in rev || ((e.from in visited) == (e.to in visited)) {
        ScannedSkip(edges, rev, visited, next - 1, skipped);
        skipped := true;
        continue;
      }
      PendingShrinks(edges, visited, next - 1);
      GrowStep(edges, rev, visited, next - 1, skipped, tree);
      if !skipped {
        ScannedAdd(edges, rev, visited, next - 1);
      }
      visited := visited + {e.from, e.to};
      TreeStep(tree, e, connections);
      mst := MarkConnections(mst, e, connections);
      tree := tree + [e];
      if skipped {
        skipped := false;
        next := 0;
        ScannedNone(edges, rev, visited);
      }
    }
    ScannedAll(edges, rev, visited, skipped);
    assert tree == grown;
  }

  lemma TreeNone(connections: map<Key, nat>)
    ensures EndsOf([]) == {} && MstConnections([], connections) == {}
  {
  }

  /** What one more tree edge adds. */
  lemma TreeStep(tree: seq<Edge>, e: Edge, connections: map<Key, nat>)
    ensures EndsOf(tree + [e]) == EndsOf(tree) + {e.from, e.to}
    ensures MstConnections(tree + [e], connections) ==
            MstConnections(tree, connections) +
            ConnectionOf(KeyOf(e), connections) + ConnectionOf(Flip(KeyOf(e)), connections)
  {
    assert (tree + [e])[..|tree + [e]| - 1] == tree;
  }

  /** The first candidate moves from what is still to grow to the end of what has grown. */
  lemma GrowStep(edges: seq<Edge>, rev: set<Key>, s: set<Name>, k: nat, skipped: bool, tree: seq<Edge>)
    requires k < |edges| && Candidate(edges[k], rev, s)
    requires Scanned(edges, rev, s, k, skipped)
    ensures tree + Grow(edges, rev, s) == tree + [edges[k]] + Grow(edges, rev, s + {edges[k].from, edges[k].to})
  {
    assert First(edges, rev, s, 0) == k;
  }
}
