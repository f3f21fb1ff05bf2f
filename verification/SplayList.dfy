/** The list that threads the nodes of a splay tree in order, and the tree surgery of insertion
    and removal. */
module SplayList {
  import opened SplayShape
  import opened SplayBottomUp

  ghost function At<T>(s: seq<Node<T>>, i: int): Node?<T> {
    if 0 <= i < |s| then s[i] else null
  }

  /** The list from `head` to `tail` visits exactly the nodes of `s`, in both directions. */
  ghost predicate Threaded<T>(m: Heap<T>, s: seq<Node<T>>, head: Node?<T>, tail: Node?<T>) {
    && head == At(s, 0) && tail == At(s, |s| - 1)
    && forall i | 0 <= i < |s| :: s[i] in m && m[s[i]].next == At(s, i + 1) && m[s[i]].prev == At(s, i - 1)
  }

  ghost function Inserted<T>(s: seq<Node<T>>, i: nat, n: Node<T>): seq<Node<T>>
    requires i <= |s|
  {
    s[..i] + [n] + s[i..]
  }

  ghost function Removed<T>(s: seq<Node<T>>, i: nat): seq<Node<T>>
    requires i < |s|
  {
    s[..i] + s[i + 1..]
  }

  ghost function SetNext<T>(m: Heap<T>, n: Node<T>, v: Node?<T>): Heap<T>
    requires n in m
  {
    m[n := m[n].(next := v)]
  }

  ghost function SetPrev<T>(m: Heap<T>, n: Node<T>, v: Node?<T>): Heap<T>
    requires n in m
  {
    m[n := m[n].(prev := v)]
  }

  /** Link `n` into the list between two neighbours, either of which may be missing. */
  ghost function LinkBetween<T>(m: Heap<T>, p: Node?<T>, n: Node<T>, q: Node?<T>): Heap<T>
    requires n in m && (p == null || p in m) && (q == null || q in m)
  {
    var m1 := SetPrev(SetNext(m, n, q), n, p);
    var m2 := if p == null then m1 else SetNext(m1, p, n);
    if q == null then m2 else SetPrev(m2, q, n)
  }

  lemma LinkBetweenPtrs<T>(m: Heap<T>, p: Node?<T>, n: Node<T>, q: Node?<T>)
    requires n in m && (p == null || p in m) && (q == null || q in m) && p != n && q != n && (p == null || p != q)
    ensures var m' := LinkBetween(m, p, n, q);
            && m'.Keys == m.Keys && m'[n].next == q && m'[n].prev == p
            && (p != null ==> m'[p].next == n && m'[p].prev == m[p].prev)
            && (q != null ==> m'[q].prev == n && m'[q].next == m[q].next)
            && Agree(m, m', m.Keys)
            && forall x <- m.Keys | x != n && x != p && x != q :: m'[x] == m[x]
  {
  }

  lemma InsertedAt<T>(s: seq<Node<T>>, i: nat, n: Node<T>, j: int)
    requires i <= |s|
    ensures At(Inserted(s, i, n), j) == if j < i then At(s, j) else if j == i then n else At(s, j - 1)
    ensures |Inserted(s, i, n)| == |s| + 1
  {
  }

  lemma ThreadedAt<T>(m: Heap<T>, s: seq<Node<T>>, head: Node?<T>, tail: Node?<T>, j: int)
    requires Threaded(m, s, head, tail) && NoDup(s)
    ensures 0 <= j < |s| ==> s[j] in m && m[s[j]].next == At(s, j + 1) && m[s[j]].prev == At(s, j - 1)
    ensures forall k | 0 <= k < |s| && k != j :: At(s, k) != At(s, j)
    ensures 0 <= j < |s| ==> At(s, j) == s[j] && s[j] in s
  {
  }

  lemma LinkedAt<T>(m: Heap<T>, s: seq<Node<T>>, i: nat, n: Node<T>, head: Node?<T>, tail: Node?<T>, j: nat)
    requires Threaded(m, s, head, tail) && NoDup(s) && i <= |s| && n !in s && n in m && j <= |s|
    ensures var p, q := At(s, i - 1), At(s, i);
            && (p == null || p in m) && (q == null || q in m)
            && var r, m' := Inserted(s, i, n), LinkBetween(m, p, n, q);
               j < |r| && r[j] in m' && m'[r[j]].next == At(r, j + 1) && m'[r[j]].prev == At(r, j - 1)
  {
    hide LinkBetween, Threaded, NoDup, Inserted, Agree;
    var p, q := At(s, i - 1), At(s, i);
    ThreadedAt(m, s, head, tail, i - 1);
    ThreadedAt(m, s, head, tail, i);
    ThreadedAt(m, s, head, tail, if j < i then j else j - 1);
    LinkBetweenPtrs(m, p, n, q);
    var r := Inserted(s, i, n);
    InsertedAt(s, i, n, j);
    InsertedAt(s, i, n, j - 1);
    InsertedAt(s, i, n, j + 1);
  }

  lemma ThreadedInsert<T>(m: Heap<T>, s: seq<Node<T>>, i: nat, n: Node<T>, head: Node?<T>, tail: Node?<T>)
    requires Threaded(m, s, head, tail) && NoDup(s) && i <= |s| && n !in s && n in m
    ensures var p, q := At(s, i - 1), At(s, i);
            && (p == null || p in m) && (q == null || q in m)
            && Threaded(LinkBetween(m, p, n, q), Inserted(s, i, n), if p == null then n else head,
                        if q == null then n else tail)
  {
    forall j: nat | j <= |s| {
      LinkedAt(m, s, i, n, head, tail, j);
    }
    InsertedAt(s, i, n, 0);
    InsertedAt(s, i, n, |s|);
    hide LinkBetween, NoDup, Inserted;
  }

  /** Take `n` out of the list; its own pointers stay. */
  ghost function Bypass<T>(m: Heap<T>, p: Node?<T>, q: Node?<T>): Heap<T>
    requires (p == null || p in m) && (q == null || q in m)
  {
    var m1 := if p == null then m else SetNext(m, p, q);
    if q == null then m1 else SetPrev(m1, q, p)
  }

  lemma BypassPtrs<T>(m: Heap<T>, p: Node?<T>, q: Node?<T>)
    requires (p == null || p in m) && (q == null || q in m) && (p == null || p != q)
    ensures var m' := Bypass(m, p, q);
            && m'.Keys == m.Keys
            && (p != null ==> m'[p].next == q && m'[p].prev == m[p].prev)
            && (q != null ==> m'[q].prev == p && m'[q].next == m[q].next)
            && Agree(m, m', m.Keys)
            && forall x <- m.Keys | x != p && x != q :: m'[x] == m[x]
  {
  }

  lemma RemovedAt<T>(s: seq<Node<T>>, i: nat, j: int)
    requires i < |s|
    ensures At(Removed(s, i), j) == if j < i then At(s, j) else At(s, j + 1)
    ensures |Removed(s, i)| == |s| - 1
  {
  }

  lemma BypassedAt<T>(m: Heap<T>, s: seq<Node<T>>, i: nat, head: Node?<T>, tail: Node?<T>, j: nat)
    requires Threaded(m, s, head, tail) && NoDup(s) && i < |s| && j < |s| - 1
    ensures var p, q := At(s, i - 1), At(s, i + 1);
            && (p == null || p in m) && (q == null || q in m)
            && var r, m' := Removed(s, i), Bypass(m, p, q);
               j < |r| && r[j] in m' && m'[r[j]].next == At(r, j + 1) && m'[r[j]].prev == At(r, j - 1)
  {
    hide Bypass, Threaded, NoDup, Removed, Agree;
    var p, q := At(s, i - 1), At(s, i + 1);
    ThreadedAt(m, s, head, tail, i - 1);
    ThreadedAt(m, s, head, tail, i);
    ThreadedAt(m, s, head, tail, i + 1);
    ThreadedAt(m, s, head, tail, if j < i then j else j + 1);
    BypassPtrs(m, p, q);
    RemovedAt(s, i, j);
    RemovedAt(s, i, j - 1);
    RemovedAt(s, i, j + 1);
  }

  lemma ThreadedRemove<T>(m: Heap<T>, s: seq<Node<T>>, i: nat, head: Node?<T>, tail: Node?<T>)
    requires Threaded(m, s, head, tail) && NoDup(s) && i < |s|
    ensures var p, q := At(s, i - 1), At(s, i + 1);
            && (p == null || p in m) && (q == null || q in m)
            && Threaded(Bypass(m, p, q), Removed(s, i), if p == null then q else head, if q == null then p else tail)
  {
    forall j: nat | j < |s| - 1 {
      BypassedAt(m, s, i, head, tail, j);
    }
    ThreadedAt(m, s, head, tail, i - 1);
    ThreadedAt(m, s, head, tail, i + 1);
    RemovedAt(s, i, 0);
    RemovedAt(s, i, |s| - 2);
    hide Bypass, NoDup, Removed;
  }

  lemma ThreadedFrame<T>(m: Heap<T>, m': Heap<T>, s: seq<Node<T>>, head: Node?<T>, tail: Node?<T>)
    requires Threaded(m, s, head, tail)
    requires forall n <- s | n in m :: n in m' && m'[n].next == m[n].next && m'[n].prev == m[n].prev
    ensures Threaded(m', s, head, tail)
  {
  }

  /** Any node of a tree can be brought into focus. */
  lemma {:induction false} Locate<T>(m: Heap<T>, c: Ctx<T>, t: Tree<T>, p: Node?<T>, n: Node<T>)
    returns (c': Ctx<T>, a: Tree<T>, b: Tree<T>)
    requires Hangs(m, c, p) && Shape(m, t, p, Owner(c)) && CtxDistinct(c) && Distinct(t) && CtxNodes(c) !! Nodes(t)
    requires n in Nodes(t)
    ensures Focus(m, c', a, n, b)
    ensures Sequence(c', a, n, b) == Before(c) + Inorder(t) + After(c)
    ensures AllNodes(c', a, n, b) == CtxNodes(c) + Nodes(t)
    decreases t
  {
    if n == t.node {
      c', a, b := c, t.left, t.right;
    } else if n in Nodes(t.left) {
      c', a, b := Locate(m, LeftOf(c, t.node, t.right), t.left, m[t.node].left, n);
      Regroup(Before(c), Inorder(t.left), [t.node], Inorder(t.right), After(c));
    } else {
      c', a, b := Locate(m, RightOf(c, t.left, t.node), t.right, m[t.node].right, n);
      Regroup(Before(c), Inorder(t.left), [t.node], Inorder(t.right), After(c));
    }
  }
}
