/** A graph with indirect edges on which the search of src/graph.c never ends.

Eight nodes: the local node 7, its neighbours 3, 4 and 6, and two rings of three, 0 to 2 and 4 to 6.
From each node of the second ring, heavy direct edges lead to the next node of both rings; from each
node of the first ring, light indirect edges do.  A node reached indirectly takes a direct route,
however long; a node reached directly takes a lighter edge at the same distance, even an indirect
one.  So two waves chase each other around the rings, and distances grow for ever.
*/
module SsspDiverges {
  import opened Common
  import opened Names
  import opened Edges
  import opened Sssp
  import opened SsspBfs
  import EdgeTrees
  import EdgeStores

  const MYSELF: nat := 7

  /** The name of node k; names sort as numbers do. */
  function N(k: nat): (n: Name)
    ensures |n.text| == k + 1
  {
    Name(seq(k + 1, _ => 'a'))
  }

  /** The edges of a node, by their far ends. */
  datatype Arcs = Nil | Arc(to: nat, indirect: bool, weight: nat, rest: Arcs)

  function Out(x: nat): Arcs {
    match x
    case 0 => Arc(1, true, 1, Arc(2, true, 1000, Arc(5, true, 1, Arc(6, true, 1000, Nil))))
    case 1 => Arc(0, true, 1000, Arc(2, true, 1, Arc(4, true, 1000, Arc(6, true, 1, Nil))))
    case 2 => Arc(0, true, 1, Arc(1, true, 1000, Arc(4, true, 1, Arc(5, true, 1000, Nil))))
    case 3 => Arc(4, false, 1000, Arc(7, true, 1000, Nil))
    case 4 => Arc(1, false, 100, Arc(2, true, 1000, Arc(3, true, 1000,
              Arc(5, false, 100, Arc(6, true, 1000, Arc(7, true, 1000, Nil))))))
    case 5 => Arc(0, true, 1000, Arc(2, false, 100, Arc(4, true, 1000, Arc(6, false, 100, Nil))))
    case 6 => Arc(0, false, 100, Arc(1, true, 1000, Arc(4, false, 100, Arc(5, true, 1000, Arc(7, true, 1000, Nil)))))
    case 7 => Arc(3, false, 1000, Arc(4, true, 1000, Arc(6, true, 1000, Nil)))
    case _ => Nil
  }

  function EdgesOf(x: nat, arcs: Arcs): seq<Edge> {
    match arcs
    case Nil => []
    case Arc(to, indirect, weight, rest) =>
      [Edge(N(x), N(to), weight, if indirect then OPTION_INDIRECT else 0, Unknown, Unknown)] + EdgesOf(x, rest)
  }

  predicate Leads(arcs: Arcs, to: nat) {
    arcs.Arc? && (arcs.to == to || Leads(arcs.rest, to))
  }

  function Reversed(): set<Key> {
    set i, j | 0 <= i < 8 && 0 <= j < 8 && Leads(Out(i), j) :: (N(i), N(j))
  }

  /** Which node a name is of. */
  function Index(n: Name): nat {
    if n.text == [] then 0 else |n.text| - 1
  }

  /** The graph. */
  function Rings(): Net {
    var nodes := set i | 0 <= i < 8 :: N(i);
    Net(map n | n in nodes :: EdgesOf(Index(n), Out(Index(n))), Reversed(), N(MYSELF))
  }

  /** Every arc leads to another node, from which one leads back. */
  predicate Proper(x: nat, arcs: Arcs) {
    arcs.Arc? ==>
      && arcs.to < 8 && arcs.to != x && Leads(Out(arcs.to), x) && Leads(Out(x), arcs.to)
      && Proper(x, arcs.rest)
  }

  lemma AllProper(x: nat)
    requires x < 8
    ensures Proper(x, Out(x))
  {
    if x < 4 {
      assert Proper(0, Out(0)) && Proper(1, Out(1)) && Proper(2, Out(2)) && Proper(3, Out(3));
    } else {
      OtherRing(x);
    }
  }

  lemma OtherRing(x: nat)
    requires 4 <= x < 8
    ensures Proper(x, Out(x))
  {
    assert Proper(4, Out(4)) && Proper(5, Out(5)) && Proper(6, Out(6)) && Proper(7, Out(7));
  }

  lemma {:induction false} EdgesProper(x: nat, arcs: Arcs, e: Edge)
    requires Proper(x, arcs) && e in EdgesOf(x, arcs)
    ensures exists y: nat :: y < 8 && y != x && e.from == N(x) && e.to == N(y) && Leads(Out(x), y) && Leads(Out(y), x)
    decreases arcs
  {
    if e.to == N(arcs.to) && e.from == N(x) {
    } else {
      EdgesProper(x, arcs.rest, e);
    }
  }

  lemma {:induction false} LeadsEdge(x: nat, arcs: Arcs, y: nat) returns (e: Edge)
    requires Leads(arcs, y)
    ensures e in EdgesOf(x, arcs) && KeyOf(e) == (N(x), N(y))
    decreases arcs
  {
    if arcs.to == y {
      e := EdgesOf(x, arcs)[0];
    } else {
      e := LeadsEdge(x, arcs.rest, y);
    }
  }

  lemma TreeOf(x: nat)
    requires x < 8
    ensures N(x) in Rings().adj && Rings().adj[N(x)] == EdgesOf(x, Out(x))
  {
    hide EdgesOf, Out, Reversed;
  }

  lemma NodeOf(n: Name) returns (x: nat)
    requires n in Rings().adj
    ensures x < 8 && n == N(x) && Rings().adj[n] == EdgesOf(x, Out(x))
  {
    hide EdgesOf, Out, Reversed;
    x := Index(n);
  }

  /** The search accepts the graph. */
  lemma RingsValid()
    ensures Rings().Valid() && Rings().Symmetric()
  {
    hide Rings, EdgesOf, Out, Leads, Proper;
    var net := Rings();
    MyselfIsNode();
    forall n, i | n in net.adj && 0 <= i < |net.adj[n]|
      ensures var e := net.adj[n][i]; e.from == n && e.to in net.adj && e.to != n
    {
      var y := FarEnd(n, net.adj[n][i]);
    }
    forall e | e in net.Links()
      ensures HasTwin(net.Links(), e)
    {
      var n :| n in net.adj && e in net.adj[n];
      TwinOf(n, e);
    }
  }

  /** The trees are in the order the edges are kept in. */
  lemma RingsSorted()
    ensures EdgeStores.TreesOk(Rings().adj)
  {
    hide Rings, EdgesOf, Out, Proper;
    var adj := Rings().adj;
    forall n | n in adj
      ensures EdgeStores.TreeOk(n, adj.Keys, adj[n])
    {
      var x := NodeOf(n);
      forall e | e in adj[n]
        ensures e.from == n && e.to in adj && e.to != n
      {
        var y := FarEnd(n, e);
      }
      AllAscend(x);
      Ascending(x, Out(x), 0);
    }
  }

  /** The far ends of the arcs ascend, from `low` on. */
  predicate Ascends(arcs: Arcs, low: nat) {
    arcs.Arc? ==> low <= arcs.to && Ascends(arcs.rest, arcs.to + 1)
  }

  lemma AllAscend(x: nat)
    requires x < 8
    ensures Ascends(Out(x), 0)
  {
    assert Ascends(Out(0), 0) && Ascends(Out(1), 0) && Ascends(Out(2), 0) && Ascends(Out(3), 0);
    assert Ascends(Out(4), 0) && Ascends(Out(5), 0) && Ascends(Out(6), 0) && Ascends(Out(7), 0);
  }

  lemma {:induction false} Ascending(x: nat, arcs: Arcs, low: nat)
    requires Ascends(arcs, low)
    ensures EdgeTrees.SortedBy(EdgeCompare, EdgesOf(x, arcs))
    ensures forall e <- EdgesOf(x, arcs) :: exists y: nat :: low <= y && e.to == N(y)
    decreases arcs
  {
    if arcs.Arc? {
      var es, rest := EdgesOf(x, arcs), EdgesOf(x, arcs.rest);
      Ascending(x, arcs.rest, arcs.to + 1);
      assert forall i | 0 < i < |es| :: es[i] == rest[i - 1];
      forall e <- rest
        ensures EdgeCompare(es[0], e) < 0
      {
        var y: nat :| arcs.to + 1 <= y && e.to == N(y);
        NamesOrdered(N(arcs.to).text, N(y).text);
      }
    }
  }

  lemma {:induction false} NamesOrdered(a: string, b: string)
    requires |a| < |b| && (forall i | 0 <= i < |a| :: a[i] == 'a') && (forall i | 0 <= i < |b| :: b[i] == 'a')
    ensures StrCmp(a, b) < 0
    decreases |a|
  {
    if a != [] {
      NamesOrdered(a[1..], b[1..]);
    }
  }

  lemma MyselfIsNode()
    ensures Rings().myself in Rings().adj
  {
    TreeOf(MYSELF);
  }

  lemma FarEnd(n: Name, e: Edge) returns (y: nat)
    requires n in Rings().adj && e in Rings().adj[n]
    ensures y < 8 && e.to == N(y) && e.from == n && e.to in Rings().adj && e.to != n
  {
    hide Rings, EdgesOf, Out, Leads, Proper;
    var x := NodeOf(n);
    AllProper(x);
    EdgesProper(x, Out(x), e);
    y :| y < 8 && y != x && e.from == N(x) && e.to == N(y) && Leads(Out(x), y) && Leads(Out(y), x);
    TreeOf(y);
    assert |N(x).text| != |N(y).text|;
  }

  lemma TwinOf(n: Name, e: Edge)
    requires n in Rings().adj && e in Rings().adj[n]
    ensures HasTwin(Rings().Links(), e)
  {
    hide Rings, EdgesOf, Out, Leads, Proper;
    var x := NodeOf(n);
    AllProper(x);
    EdgesProper(x, Out(x), e);
    var y: nat :| y < 8 && y != x && e.from == N(x) && e.to == N(y) && Leads(Out(x), y) && Leads(Out(y), x);
    TreeOf(y);
    KnownKey(y, x);
    var twin := LeadsEdge(y, Out(y), x);
    assert twin in Rings().adj[N(y)] && KeyOf(twin) in Rings().rev;
    assert twin in Rings().Links() && KeyOf(twin) == Flip(KeyOf(e));
  }

  /** What matters of the route of a node: not visited, reached directly or indirectly, at which
      distance and over an edge of which weight. */
  datatype Mark = Unseen | Near(distance: nat, weight: nat) | Far(distance: nat, weight: nat)

  /** The marks of the nodes 0 to 6. */
  datatype Marks = Marks(c0: Mark, c1: Mark, c2: Mark, m: Mark, a0: Mark, a1: Mark, a2: Mark)
  {
    function Get(k: nat): Mark {
      match k
      case 0 => c0
      case 1 => c1
      case 2 => c2
      case 3 => m
      case 4 => a0
      case 5 => a1
      case 6 => a2
      case _ => Near(0, 0)
    }

    function Set(k: nat, v: Mark): (r: Marks)
      requires k < 7
      ensures r.Get(k) == v && forall j | 0 <= j && j != k :: r.Get(j) == Get(j)
    {
      match k
      case 0 => this.(c0 := v)
      case 1 => this.(c1 := v)
      case 2 => this.(c2 := v)
      case 3 => this.(m := v)
      case 4 => this.(a0 := v)
      case 5 => this.(a1 := v)
      case _ => this.(a2 := v)
    }
  }

  /** The mark of the far end of an arc from a node with mark `from`. */
  function Via(from: Mark, indirect: bool, weight: nat): Mark
    requires !from.Unseen?
  {
    if from.Far? || indirect then Far(from.distance + 1, weight) else Near(from.distance + 1, weight)
  }

  predicate Better(from: Mark, to: Mark, indirect: bool, weight: nat)
    requires !from.Unseen?
  {
    to.Unseen? || (to.Far? && Via(from, indirect, weight).Near?)
      || (to.distance == from.distance + 1 && weight < to.weight)
  }

  /** The search on marks: examining the arcs of node x gives new marks, and nodes for the list. */
  function Scan(ms: Marks, x: nat, arcs: Arcs): (Marks, seq<nat>)
    decreases arcs
  {
    match arcs
    case Nil => (ms, [])
    case Arc(to, indirect, weight, rest) =>
      if to < 7 && !ms.Get(x).Unseen? && Better(ms.Get(x), ms.Get(to), indirect, weight)
      then var (ms', added) := Scan(ms.Set(to, Via(ms.Get(x), indirect, weight)), x, rest); (ms', [to] + added)
      else Scan(ms, x, rest)
  }

  /** The marks tell the truth about the routes. */
  ghost predicate Shows(ms: Marks, r: Routes) {
    && N(MYSELF) in r && r[N(MYSELF)].distance == 0 && !r[N(MYSELF)].indirect
    && forall k: nat | k < 7 :: ShowsAt(ms.Get(k), r, N(k))
  }

  ghost predicate ShowsAt(m: Mark, r: Routes, n: Name) {
    && (m.Unseen? <==> n !in r)
    && (n in r ==>
          && r[n].distance == m.distance && r[n].indirect == m.Far?
          && r[n].prev.Some? && r[n].prev.value.weight == m.weight)
  }

  function Nodes(q: seq<nat>): seq<Name> {
    seq(|q|, i requires 0 <= i < |q| => N(q[i]))
  }

  ghost predicate Seen(ms: Marks, q: seq<nat>) {
    forall k <- q :: k < 8 && !ms.Get(k).Unseen?
  }

  /** Examining edges does to the marks what it does to the routes. */
  lemma {:induction false} ScanShows(ms: Marks, q: seq<nat>, x: nat, arcs: Arcs, r: Routes)
    requires Shows(ms, r) && x < 8 && !ms.Get(x).Unseen? && Proper(x, arcs) && Seen(ms, q)
    ensures var (ms', added) := Scan(ms, x, arcs);
            var (r', todo') := Scanned(Rings(), r, Nodes(q), EdgesOf(x, arcs));
            Shows(ms', r') && todo' == Nodes(q + added) && Seen(ms', q + added)
    decreases arcs
  {
    hide Shows, Rings, Improves, RouteVia, Out, Leads;
    if arcs.Nil? {
      assert q + [] == q;
    } else {
      var es := EdgesOf(x, arcs);
      var e := es[0];
      assert es[1..] == EdgesOf(x, arcs.rest);
      KnownKey(x, arcs.to);
      if arcs.to < 7 && Better(ms.Get(x), ms.Get(arcs.to), arcs.indirect, arcs.weight) {
        var ms' := ms.Set(arcs.to, Via(ms.Get(x), arcs.indirect, arcs.weight));
        TakeShows(ms, x, arcs, r);
        assert Nodes(q) + [e.to] == Nodes(q + [arcs.to]);
        ScanShows(ms', q + [arcs.to], x, arcs.rest, r[e.to := RouteVia(r, e, N(MYSELF))]);
        var added := Scan(ms', x, arcs.rest).1;
        assert q + [arcs.to] + added == q + ([arcs.to] + added);
      } else {
        LeaveShows(ms, x, arcs, r);
        ScanShows(ms, q, x, arcs.rest, r);
      }
    }
  }

  lemma KnownKey(x: nat, y: nat)
    requires x < 8 && y < 8 && Leads(Out(x), y)
    ensures (N(x), N(y)) in Rings().rev && Rings().myself == N(MYSELF) && (N(y) == N(MYSELF) <==> y == MYSELF)
  {
    assert N(y) == N(MYSELF) ==> |N(y).text| == |N(MYSELF).text|;
  }

  /** The edge of an arc. */
  function First(x: nat, arcs: Arcs): Edge
    requires arcs.Arc?
  {
    EdgesOf(x, arcs)[0]
  }

  lemma MarkShown(ms: Marks, r: Routes, x: nat)
    requires Shows(ms, r) && x < 8 && !ms.Get(x).Unseen?
    ensures N(x) in r && r[N(x)].distance == ms.Get(x).distance && r[N(x)].indirect == ms.Get(x).Far?
  {
    if x < 7 {
      assert ShowsAt(ms.Get(x), r, N(x));
    }
  }

  lemma TakeShows(ms: Marks, x: nat, arcs: Arcs, r: Routes)
    requires Shows(ms, r) && x < 8 && !ms.Get(x).Unseen? && arcs.Arc? && arcs.to < 7 && arcs.to != x
    requires Better(ms.Get(x), ms.Get(arcs.to), arcs.indirect, arcs.weight)
    ensures var e := First(x, arcs);
            && e.from in r && Improves(r, e)
            && Shows(ms.Set(arcs.to, Via(ms.Get(x), arcs.indirect, arcs.weight)), r[e.to := RouteVia(r, e, N(MYSELF))])
  {
    MarkShown(ms, r, x);
    var e := First(x, arcs);
    assert ShowsAt(ms.Get(arcs.to), r, e.to);
    var ms' := ms.Set(arcs.to, Via(ms.Get(x), arcs.indirect, arcs.weight));
    var r' := r[e.to := RouteVia(r, e, N(MYSELF))];
    assert |N(MYSELF).text| != |e.to.text|;
    forall k: nat | k < 7
      ensures ShowsAt(ms'.Get(k), r', N(k))
    {
      if k != arcs.to {
        assert |N(k).text| != |e.to.text|;
        assert ShowsAt(ms.Get(k), r, N(k));
      }
    }
  }

  lemma LeaveShows(ms: Marks, x: nat, arcs: Arcs, r: Routes)
    requires Shows(ms, r) && x < 8 && !ms.Get(x).Unseen? && arcs.Arc? && arcs.to < 8
    requires !(arcs.to < 7 && Better(ms.Get(x), ms.Get(arcs.to), arcs.indirect, arcs.weight))
    ensures var e := First(x, arcs);
            e.from in r && (e.to == N(MYSELF) || !Improves(r, e))
  {
    MarkShown(ms, r, x);
    var e := First(x, arcs);
    if arcs.to < 7 {
      assert ShowsAt(ms.Get(arcs.to), r, e.to);
    }
  }

  /** The search on marks ends within so many passes. */
  ghost predicate MarksEnd(ms: Marks, q: seq<nat>, fuel: nat)
    decreases fuel
  {
    q == [] || (fuel > 0 && var (ms', added) := Scan(ms, q[0], Out(q[0])); MarksEnd(ms', q[1..] + added, fuel - 1))
  }

  lemma PassShows(ms: Marks, q: seq<nat>, r: Routes)
    requires Shows(ms, r) && Seen(ms, q) && q != []
    ensures N(q[0]) in Rings().adj && Nodes(q) != [] && Nodes(q)[0] == N(q[0])
    ensures var (ms', added) := Scan(ms, q[0], Out(q[0]));
            var (r', todo') := Pass(Rings(), r, Nodes(q));
            Shows(ms', r') && todo' == Nodes(q[1..] + added) && Seen(ms', q[1..] + added)
  {
    hide Scan, Out, Scanned, Rings, Proper, EdgesOf, Shows;
    var x := q[0];
    assert x in q;
    TreeOf(x);
    AllProper(x);
    ScanShows(ms, q, x, Out(x), r);
    var (ms', added) := Scan(ms, x, Out(x));
    assert (q + added)[1..] == q[1..] + added;
    assert Nodes(q + added)[1..] == Nodes((q + added)[1..]);
    forall k <- q[1..] + added
      ensures k < 8 && !ms'.Get(k).Unseen?
    {
      assert k in q + added;
    }
  }

  lemma {:induction false} EndsShown(ms: Marks, q: seq<nat>, r: Routes, fuel: nat)
    requires Shows(ms, r) && Seen(ms, q) && Ends(Rings(), r, Nodes(q), fuel)
    ensures MarksEnd(ms, q, fuel)
    decreases fuel
  {
    hide Scan, Out, Pass, Rings, Shows, Seen;
    if q != [] {
      PassShows(ms, q, r);
      var (ms', added) := Scan(ms, q[0], Out(q[0]));
      var (r', todo') := Pass(Rings(), r, Nodes(q));
      EndsShown(ms', q[1..] + added, r', fuel - 1);
    }
  }

  /** One pass, from one state to the next. */
  lemma OnePass(ms: Marks, q: seq<nat>, x: nat, ms': Marks, added: seq<nat>, q': seq<nat>, fuel: nat)
    requires q != [] && x == q[0] && Scan(ms, x, Out(x)).0 == ms' && Scan(ms, x, Out(x)).1 == added
             && q' == q[1..] + added && MarksEnd(ms, q, fuel)
    ensures fuel > 0 && MarksEnd(ms', q', fuel - 1)
  {
  }

  /** Both rings have the same marks. */
  function Turning(x: Mark, y: Mark, z: Mark): Marks {
    Marks(x, y, z, Near(1, 1000), x, y, z)
  }

  /** Before the first pass. */
  function Start(): Marks {
    Marks(Unseen, Unseen, Unseen, Unseen, Unseen, Unseen, Unseen)
  }

  /** After the second. */
  function Second(): Marks {
    Marks(Unseen, Unseen, Unseen, Near(1, 1000), Near(2, 1000), Unseen, Far(1, 1000))
  }

  /** After the fourth. */
  function Fourth(): Marks {
    Marks(Far(2, 100), Near(3, 100), Far(3, 1000), Near(1, 1000), Far(2, 100), Near(3, 100), Far(1, 1000))
  }

  lemma FirstPasses(fuel: nat)
    requires MarksEnd(Start(), [7], fuel)
    ensures fuel >= 4 && MarksEnd(Fourth(), [4, 1, 2, 5, 0, 4], fuel - 4)
  {
    hide MarksEnd;
    var s1 := Marks(Unseen, Unseen, Unseen, Near(1, 1000), Far(1, 1000), Unseen, Far(1, 1000));
    var s3 := Marks(Unseen, Near(3, 100), Far(3, 1000), Near(1, 1000), Near(2, 1000), Near(3, 100), Far(1, 1000));
    OnePass(Start(), [7], 7, s1, [3, 4, 6], [3, 4, 6], fuel);
    OnePass(s1, [3, 4, 6], 3, Second(), [4], [4, 6, 4], fuel - 1);
    OnePass(Second(), [4, 6, 4], 4, s3, [1, 2, 5], [6, 4, 1, 2, 5], fuel - 2);
    OnePass(s3, [6, 4, 1, 2, 5], 6, Fourth(), [0, 4], [4, 1, 2, 5, 0, 4], fuel - 3);
  }

  lemma NextPasses(fuel: nat)
    requires MarksEnd(Fourth(), [4, 1, 2, 5, 0, 4], fuel)
    ensures fuel >= 6 && MarksEnd(Turning(Far(2, 100), Far(3, 1), Near(4, 100)), [2, 6, 1, 5], fuel - 6)
  {
    hide MarksEnd;
    var s8, s9 := Turning(Far(2, 100), Near(3, 100), Near(4, 100)), Turning(Far(2, 100), Far(3, 1), Near(4, 100));
    OnePass(Fourth(), [4, 1, 2, 5, 0, 4], 4, Fourth(), [], [1, 2, 5, 0, 4], fuel);
    OnePass(Fourth(), [1, 2, 5, 0, 4], 1, Fourth(), [], [2, 5, 0, 4], fuel - 1);
    OnePass(Fourth(), [2, 5, 0, 4], 2, Fourth(), [], [5, 0, 4], fuel - 2);
    OnePass(Fourth(), [5, 0, 4], 5, s8, [2, 6], [0, 4, 2, 6], fuel - 3);
    OnePass(s8, [0, 4, 2, 6], 0, s9, [1, 5], [4, 2, 6, 1, 5], fuel - 4);
    OnePass(s9, [4, 2, 6, 1, 5], 4, s9, [], [2, 6, 1, 5], fuel - 5);
  }

  /** A third of a turn: the direct wave, at the nodes 2 and 6, goes on to 0 and 4, and the indirect
      one, at 1 and 5, follows it to 2 and 6. */
  lemma FirstThird(d: nat, w: nat, fuel: nat)
    requires w <= 100 && MarksEnd(Turning(Far(d, w), Far(d + 1, 1), Near(d + 2, 100)), [2, 6, 1, 5], fuel)
    ensures fuel >= 4 && MarksEnd(Turning(Near(d + 3, 100), Far(d + 1, 1), Far(d + 2, 1)), [0, 4, 2, 6], fuel - 4)
  {
    hide MarksEnd;
    var s := Turning(Far(d, w), Far(d + 1, 1), Near(d + 2, 100));
    var s2 := Turning(Near(d + 3, 100), Far(d + 1, 1), Near(d + 2, 100));
    var s3 := Turning(Near(d + 3, 100), Far(d + 1, 1), Far(d + 2, 1));
    OnePass(s, [2, 6, 1, 5], 2, s, [], [6, 1, 5], fuel);
    OnePass(s, [6, 1, 5], 6, s2, [0, 4], [1, 5, 0, 4], fuel - 1);
    OnePass(s2, [1, 5, 0, 4], 1, s3, [2, 6], [5, 0, 4, 2, 6], fuel - 2);
    OnePass(s3, [5, 0, 4, 2, 6], 5, s3, [], [0, 4, 2, 6], fuel - 3);
  }

  lemma SecondThird(d: nat, fuel: nat)
    requires MarksEnd(Turning(Near(d + 2, 100), Far(d, 1), Far(d + 1, 1)), [0, 4, 2, 6], fuel)
    ensures fuel >= 4 && MarksEnd(Turning(Far(d + 2, 1), Near(d + 3, 100), Far(d + 1, 1)), [1, 5, 0, 4], fuel - 4)
  {
    hide MarksEnd;
    var s := Turning(Near(d + 2, 100), Far(d, 1), Far(d + 1, 1));
    var s2 := Turning(Near(d + 2, 100), Near(d + 3, 100), Far(d + 1, 1));
    var s3 := Turning(Far(d + 2, 1), Near(d + 3, 100), Far(d + 1, 1));
    OnePass(s, [0, 4, 2, 6], 0, s, [], [4, 2, 6], fuel);
    OnePass(s, [4, 2, 6], 4, s2, [1, 5], [2, 6, 1, 5], fuel - 1);
    OnePass(s2, [2, 6, 1, 5], 2, s3, [0, 4], [6, 1, 5, 0, 4], fuel - 2);
    OnePass(s3, [6, 1, 5, 0, 4], 6, s3, [], [1, 5, 0, 4], fuel - 3);
  }

  lemma LastThird(d: nat, fuel: nat)
    requires MarksEnd(Turning(Far(d + 1, 1), Near(d + 2, 100), Far(d, 1)), [1, 5, 0, 4], fuel)
    ensures fuel >= 4 && MarksEnd(Turning(Far(d + 1, 1), Far(d + 2, 1), Near(d + 3, 100)), [2, 6, 1, 5], fuel - 4)
  {
    hide MarksEnd;
    var s := Turning(Far(d + 1, 1), Near(d + 2, 100), Far(d, 1));
    var s2 := Turning(Far(d + 1, 1), Near(d + 2, 100), Near(d + 3, 100));
    var s3 := Turning(Far(d + 1, 1), Far(d + 2, 1), Near(d + 3, 100));
    OnePass(s, [1, 5, 0, 4], 1, s, [], [5, 0, 4], fuel);
    OnePass(s, [5, 0, 4], 5, s2, [2, 6], [0, 4, 2, 6], fuel - 1);
    OnePass(s2, [0, 4, 2, 6], 0, s3, [1, 5], [4, 2, 6, 1, 5], fuel - 2);
    OnePass(s3, [4, 2, 6, 1, 5], 4, s3, [], [2, 6, 1, 5], fuel - 3);
  }

  /** After a whole turn everything is as before, three further away. */
  lemma WholeTurn(d: nat, w: nat, fuel: nat)
    requires w <= 100 && MarksEnd(Turning(Far(d, w), Far(d + 1, 1), Near(d + 2, 100)), [2, 6, 1, 5], fuel)
    ensures fuel >= 12 && MarksEnd(Turning(Far(d + 3, 1), Far(d + 4, 1), Near(d + 5, 100)), [2, 6, 1, 5], fuel - 12)
  {
    hide MarksEnd, Turning;
    FirstThird(d, w, fuel);
    SecondThird(d + 1, fuel - 4);
    LastThird(d + 2, fuel - 8);
  }

  lemma {:induction false} TurnsForEver(d: nat, w: nat, fuel: nat)
    requires w <= 100
    ensures !MarksEnd(Turning(Far(d, w), Far(d + 1, 1), Near(d + 2, 100)), [2, 6, 1, 5], fuel)
    decreases fuel
  {
    hide MarksEnd, Turning;
    if MarksEnd(Turning(Far(d, w), Far(d + 1, 1), Near(d + 2, 100)), [2, 6, 1, 5], fuel) {
      WholeTurn(d, w, fuel);
      TurnsForEver(d + 3, 1, fuel - 12);
    }
  }

  /** However many passes it is given, the search does not end on this graph. */
  lemma NeverEnds(fuel: nat)
    ensures !Ends(Rings(), InitialRoutes(Rings().myself), [Rings().myself], fuel)
  {
    hide Ends, MarksEnd, Turning;
    var r := InitialRoutes(Rings().myself);
    StartShows();
    if Ends(Rings(), r, Nodes([MYSELF]), fuel) {
      EndsShown(Start(), [MYSELF], r, fuel);
      FirstPasses(fuel);
      NextPasses(fuel - 4);
      TurnsForEver(2, 100, fuel - 10);
    }
  }

  lemma StartShows()
    ensures Rings().myself == N(MYSELF) && Shows(Start(), InitialRoutes(N(MYSELF))) && Seen(Start(), [MYSELF])
    ensures Nodes([MYSELF]) == [N(MYSELF)]
  {
    hide EdgesOf, Out, Reversed;
    forall k: nat | k < 7
      ensures ShowsAt(Start().Get(k), InitialRoutes(N(MYSELF)), N(k))
    {
      assert |N(k).text| != |N(MYSELF).text|;
    }
  }

  /** sssp_bfs on this graph. */
  method SearchRings(fuel: nat) returns (finished: bool)
    ensures !finished
  {
    RingsValid();
    NeverEnds(fuel);
    var r;
    finished, r := SsspBfsWithin(Rings(), fuel);
  }
}
