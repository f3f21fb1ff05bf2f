/** The sequences of EdgeTrees are what the splay trees of edges hold: the same operation on both
    leaves them the same. */
module TreeRefinement {
  import opened Common
  import opened Edges
  import opened EdgeTrees
  import opened SplayShape
  import opened SplayList
  import opened SplayTrees

  ghost function Data(s: seq<Node<Edge>>): seq<Edge> {
    seq(|s|, i requires 0 <= i < |s| => s[i].data)
  }

  /** The tree holds this sequence. */
  ghost predicate Holds(t: SplayTree<Edge>, s: seq<Edge>)
    reads t, t.Repr()
  {
    t.Valid() && Data(t.Contents()) == s
  }

  lemma DataSorted(cmp: (Edge, Edge) -> int, domain: iset<Edge>, c: seq<Node<Edge>>)
    requires SplayTrees.Sorted(cmp, domain, c)
    ensures SortedBy(cmp, Data(c)) && Within(Data(c), domain)
  {
  }

  lemma DataInserted(c: seq<Node<Edge>>, i: nat, n: Node<Edge>)
    requires i <= |c|
    ensures Data(Inserted(c, i, n)) == Data(c)[..i] + [n.data] + Data(c)[i..]
  {
  }

  lemma DataRemoved(c: seq<Node<Edge>>, i: nat)
    requires i < |c|
    ensures Data(Removed(c, i)) == Data(c)[..i] + Data(c)[i + 1..]
  {
  }

  /** splay_insert. */
  method InsertTogether(t: SplayTree<Edge>, s: seq<Edge>, e: Edge) returns (node: Node?<Edge>, s': seq<Edge>, ok: bool)
    requires Holds(t, s) && e in t.domain
    modifies t, t.Repr()
    ensures Holds(t, s') && (node != null <==> ok)
  {
    hide Tied, Inserted, SortedBy, Within, Items, Lawful, SplayTrees.Sorted;
    NodesExist(t.tree);
    ghost var c := t.Contents();
    DataSorted(t.compare, t.domain, c);
    s', ok := EdgeTrees.Insert(t.compare, s, e, t.domain);
    node := t.Insert(e);
    InsertAgrees(t.compare, c, s, e);
    DataSorted(t.compare, t.domain, t.Contents());
    if node != null {
      ghost var i :| 0 <= i <= |c| && t.Contents() == Inserted(c, i, node);
      DataInserted(c, i, node);
      InsertedItems(s, e, i);
      SortedUnique(t.compare, s', Data(t.Contents()), t.domain);
    }
  }

  lemma InsertAgrees(cmp: (Edge, Edge) -> int, c: seq<Node<Edge>>, s: seq<Edge>, e: Edge)
    requires s == Data(c)
    ensures (forall x <- s :: cmp(e, x) != 0) <==> !exists n <- c :: cmp(e, n.data) == 0
  {
    forall n <- c
      ensures n.data in s
    {
      var i :| 0 <= i < |c| && c[i] == n;
      assert s[i] == n.data;
    }
    forall x <- s
      ensures exists n <- c :: n.data == x
    {
      var i :| 0 <= i < |s| && s[i] == x;
      assert c[i] in c && c[i].data == x;
    }
  }

  /** splay_unlink. */
  method DeleteTogether(t: SplayTree<Edge>, s: seq<Edge>, e: Edge) returns (node: Node?<Edge>, s': seq<Edge>)
    requires Holds(t, s) && e in t.domain
    modifies t, t.Repr()
    ensures Holds(t, s') && (node != null <==> exists x <- s :: t.compare(e, x) == 0)
  {
    hide Tied, Removed, SortedBy, Within, Items, Lawful, SplayTrees.Sorted, Unequal;
    NodesExist(t.tree);
    ghost var c := t.Contents();
    DataSorted(t.compare, t.domain, c);
    s' := EdgeTrees.Delete(t.compare, s, e, t.domain);
    node := t.Unlink(e);
    InsertAgrees(t.compare, c, s, e);
    DataSorted(t.compare, t.domain, t.Contents());
    if node == null {
      NothingEqual(t.compare, s, e);
    } else {
      ghost var i := IndexOf(c, node);
      DataRemoved(c, i);
      RemovedEqual(t.compare, s, e, i, t.domain);
    }
    SortedUnique(t.compare, s', Data(t.Contents()), t.domain);
  }

  lemma NothingEqual(cmp: (Edge, Edge) -> int, s: seq<Edge>, e: Edge)
    requires forall x <- s :: cmp(e, x) != 0
    ensures Unequal(cmp, s, e) == Items(s)
  {
  }

  lemma RemovedEqual(cmp: (Edge, Edge) -> int, s: seq<Edge>, e: Edge, i: nat, domain: iset<Edge>)
    requires Lawful(cmp, domain) && e in domain && Within(s, domain) && SortedBy(cmp, s)
    requires i < |s| && cmp(e, s[i]) == 0
    ensures Items(s[..i] + s[i + 1..]) == Unequal(cmp, s, e)
  {
    forall k | 0 <= k < |s| && k != i
      ensures cmp(e, s[k]) != 0
    {
      OnlyEqual(cmp, s, e, i, k, domain);
    }
    RemovedItems(cmp, s, e, i);
  }

  /** No two elements of a tree are equal to a third. */
  lemma OnlyEqual(cmp: (Edge, Edge) -> int, s: seq<Edge>, e: Edge, i: nat, k: nat, domain: iset<Edge>)
    requires Lawful(cmp, domain) && e in domain && Within(s, domain) && SortedBy(cmp, s)
    requires i < |s| && k < |s| && k != i && cmp(e, s[i]) == 0
    ensures cmp(e, s[k]) != 0
  {
    assert s[i] in s && s[k] in s;
    if i < k {
      OthersDiffer(cmp, s, e, i, k, domain);
    } else if cmp(e, s[k]) == 0 {
      OthersDiffer(cmp, s, e, k, i, domain);
    }
  }

  /** splay_search. */
  method FindTogether(t: SplayTree<Edge>, s: seq<Edge>, e: Edge) returns (node: Node?<Edge>, r: Option<Edge>)
    requires Holds(t, s) && e in t.domain
    modifies t, t.Repr()
    ensures Holds(t, s)
    ensures r == if node == null then None else Some(node.data)
  {
    hide Tied, SortedBy, Within, Lawful, SplayTrees.Sorted;
    NodesExist(t.tree);
    ghost var c := t.Contents();
    DataSorted(t.compare, t.domain, c);
    r := EdgeTrees.Find(t.compare, s, e);
    node := t.Search(e);
    InsertAgrees(t.compare, c, s, e);
    if node != null && r.Some? {
      ghost var i, k := IndexOf(c, node), IndexIn(s, r.value);
      if i != k {
        OnlyEqual(t.compare, s, e, i, k, t.domain);
      }
    }
  }

  ghost function IndexIn(s: seq<Edge>, e: Edge): (i: nat)
    requires e in s
    ensures i < |s| && s[i] == e
  {
    var i :| 0 <= i < |s| && s[i] == e;
    i
  }
}
