/** The splay tree of src/splay_tree.c: a tree whose nodes are also threaded into a list. */
module SplayTrees {
  import opened SplayShape
  import opened SplaySteps
  import opened SplayBottomUp
  import opened SplayRotate
  import opened SplayTopDown
  import opened SplaySearch
  import opened SplayList
  import opened SplayInsert

  /** The tree pointers form `t`, and the list pointers visit it in order. */
  ghost predicate Tied<T>(m: Heap<T>, t: Tree<T>, root: Node?<T>, head: Node?<T>, tail: Node?<T>) {
    Distinct(t) && Shape(m, t, root, null) && Threaded(m, Inorder(t), head, tail)
  }

  ghost function IndexOf<T>(s: seq<Node<T>>, n: Node<T>): (i: nat)
    requires n in s
    ensures i < |s| && s[i] == n
  {
    var i :| 0 <= i < |s| && s[i] == n; i
  }

  lemma AtIndex<T>(s: seq<Node<T>>, n: Node<T>)
    requires n in s
    ensures At(s, IndexOf(s, n)) == n
  {
  }

  method SetNeighbours<T>(node: Node<T>, p: Node?<T>, q: Node?<T>, ghost all: set<Node<T>>)
    requires node in all
    modifies all`next, all`prev
    ensures Ptrs(all) == SetPrev(SetNext(old(Ptrs(all)), node, q), node, p)
  {
    node.next := q;
    node.prev := p;
  }

  method AssignNext<T>(n: Node<T>, v: Node?<T>, ghost all: set<Node<T>>)
    requires n in all
    modifies all`next
    ensures Ptrs(all) == SetNext(old(Ptrs(all)), n, v)
  {
    n.next := v;
  }

  method AssignPrev<T>(n: Node<T>, v: Node?<T>, ghost all: set<Node<T>>)
    requires n in all
    modifies all`prev
    ensures Ptrs(all) == SetPrev(old(Ptrs(all)), n, v)
  {
    n.prev := v;
  }

  /** Link `node` between its neighbours. */
  method LinkIn<T>(node: Node<T>, p: Node?<T>, q: Node?<T>, ghost all: set<Node<T>>)
    requires node in all && (p == null || p in all) && (q == null || q in all)
    modifies all`next, all`prev
    ensures Ptrs(all) == LinkBetween(old(Ptrs(all)), p, node, q)
  {
    hide SetNext, SetPrev;
    SetNeighbours(node, p, q, all);
    if p != null {
      AssignNext(p, node, all);
    }
    if q != null {
      AssignPrev(q, node, all);
    }
  }

  /** Take a node out of the list. */
  method LinkOut<T>(p: Node?<T>, q: Node?<T>, ghost all: set<Node<T>>)
    requires (p == null || p in all) && (q == null || q in all)
    modifies all`next, all`prev
    ensures Ptrs(all) == Bypass(old(Ptrs(all)), p, q)
  {
    hide SetNext, SetPrev;
    if p != null {
      AssignNext(p, q, all);
    }
    if q != null {
      AssignPrev(q, p, all);
    }
  }

  /** `x` becomes the right child of the new root `node`. */
  method HangBefore<T>(node: Node<T>, x: Node<T>, ghost all: set<Node<T>>)
    requires node in all && x in all && node != x && Free(Ptrs(all), node, x, x.left)
    modifies all`left, all`right, all`parent
    ensures Ptrs(all) == PutBefore(old(Ptrs(all)), node, x)
  {
    hide SetLeft, SetRight, SetParent;
    AdoptRight(node, x, all);
    MoveLeft(node, x, all);
    DropLeft(x, node, all);
  }

  method MoveLeft<T>(node: Node<T>, x: Node<T>, ghost all: set<Node<T>>)
    requires node in all && x in all && node != x && (x.left == null || x.left in all)
    modifies all`left, all`parent
    ensures Ptrs(all) == Reparent(SetLeft(old(Ptrs(all)), node, old(x.left)), old(x.left), node)
    ensures x.left == old(x.left)
  {
    node.left := x.left;
    if x.left != null {
      x.left.parent := node;
    }
  }

  /** `x` becomes the left child of the new root `node`. */
  method HangAfter<T>(node: Node<T>, x: Node<T>, ghost all: set<Node<T>>)
    requires node in all && x in all && node != x && Free(Ptrs(all), node, x, x.right)
    modifies all`left, all`right, all`parent
    ensures Ptrs(all) == PutAfter(old(Ptrs(all)), node, x)
  {
    hide SetLeft, SetRight, SetParent;
    AdoptLeft(node, x, all);
    MoveRight(node, x, all);
    DropRight(x, node, all);
  }

  method MoveRight<T>(node: Node<T>, x: Node<T>, ghost all: set<Node<T>>)
    requires node in all && x in all && node != x && (x.right == null || x.right in all)
    modifies all`right, all`parent
    ensures Ptrs(all) == Reparent(SetRight(old(Ptrs(all)), node, old(x.right)), old(x.right), node)
    ensures x.right == old(x.right)
  {
    node.right := x.right;
    if x.right != null {
      x.right.parent := node;
    }
  }

  /** The order the comparison function must be, on the elements of `domain`. */
  ghost predicate Lawful<T>(cmp: (T, T) -> int, domain: iset<T>) {
    && (forall x, y | x in domain && y in domain :: cmp(x, y) < 0 <==> cmp(y, x) > 0)
    && (forall x, y, z | x in domain && y in domain && z in domain :: cmp(x, y) <= 0 && cmp(y, z) < 0 ==> cmp(x, z) < 0)
  }

  ghost predicate Sorted<T>(cmp: (T, T) -> int, domain: iset<T>, s: seq<Node<T>>) {
    && (forall i | 0 <= i < |s| :: s[i].data in domain)
    && (forall i, j | 0 <= i < j < |s| :: cmp(s[i].data, s[j].data) < 0)
  }

  lemma SortedMonotone<T>(cmp: (T, T) -> int, domain: iset<T>, s: seq<Node<T>>, key: T)
    requires Lawful(cmp, domain) && Sorted(cmp, domain, s) && key in domain
    ensures Monotone(cmp, key, s)
  {
  }

  class SplayTree<T> {
    var head: Node?<T>
    var tail: Node?<T>
    var root: Node?<T>
    var count: nat
    var generation: nat
    const compare: (T, T) -> int
    /** The elements the comparison is an order on. */
    ghost const domain: iset<T>
    ghost var tree: Tree<T>

    ghost function Repr(): set<Node<T>>
      reads this
    {
      Nodes(tree)
    }

    ghost function Contents(): seq<Node<T>>
      reads this
    {
      Inorder(tree)
    }

    /** The pointers agree with each other; nothing is said about the order of the elements. */
    ghost predicate Linked()
      reads this, Repr()
    {
      Tied(Ptrs(Repr()), tree, root, head, tail) && count == |Contents()|
    }

    ghost predicate Valid()
      reads this, Repr()
    {
      Linked() && Lawful(compare, domain) && Sorted(compare, domain, Contents())
    }

    constructor (compare: (T, T) -> int, ghost domain: iset<T>)
      requires Lawful(compare, domain)
      ensures Valid() && Contents() == [] && this.compare == compare && this.domain == domain && count == 0
    {
      this.compare, this.domain := compare, domain;
      head, tail, root, count, generation, tree := null, null, null, 0, 0, Leaf;
    }

    /** splay_bottom_up. */
    method BringUp(node: Node<T>)
      requires Distinct(tree) && Shape(Ptrs(Repr()), tree, root, null) && node in Repr()
      modifies `root, `tree, Repr()`left, Repr()`right, Repr()`parent
      ensures Distinct(tree) && Shape(Ptrs(Repr()), tree, root, null) && tree.Fork? && root == tree.node == node
      ensures Repr() == old(Repr()) && Contents() == old(Contents())
    {
      hide Shape, Distinct, Focus, Sequence, AllNodes, Nodes, Inorder, Before, After, CtxNodes, Hangs, CtxDistinct;
      ghost var all, c, a, b;
      all := Repr();
      TopFits(Ptrs(all), tree, root);
      c, a, b := Locate(Ptrs(all), Top, tree, root, node);
      TopOrder<T>();
      assert CtxNodes<T>(Top) + all == all && Before<T>(Top) + Inorder(tree) + After<T>(Top) == Inorder(tree);
      a, b := SplayUp(node, all, c, a, b);
      FocusTop(Ptrs(all), a, node, b);
      root := node;
      tree := Fork(a, node, b);
    }

    /** splay_search_closest_node, by splay_top_down. */
    method SearchClosest(key: T) returns (node: Node?<T>, c: int)
      requires Valid() && key in domain
      modifies `root, `tree, Repr()`left, Repr()`right, Repr()`parent
      ensures Valid() && Repr() == old(Repr()) && Contents() == old(Contents()) && root == node
      ensures node == null ==> Contents() == [] && c == 0
      ensures node != null ==> node in Contents() && c == compare(key, node.data)
                               && Closest(compare, key, Contents(), IndexOf(Contents(), node))
    {
      hide Shape, Distinct, Threaded, Nodes, Inorder, Monotone, Closest, Sorted, Lawful, NoDup;
      ghost var all, t := Repr(), tree;
      if root == null {
        EmptyTree(Ptrs(Repr()), tree);
        return null, 0;
      }
      SortedMonotone(compare, domain, Contents(), key);
      InorderDistinct(tree);
      node, c, t := SplayDown(compare, key, root, all, tree);
      RootIndex(t, Inorder(tree));
      root, tree := node, t;
      Settled(old(Ptrs(all)));
    }

    /** splay_search_node. */
    method Search(key: T) returns (node: Node?<T>)
      requires Valid() && key in domain
      modifies `root, `tree, Repr()`left, Repr()`right, Repr()`parent
      ensures Valid() && Repr() == old(Repr()) && Contents() == old(Contents())
      ensures node != null ==> node in Contents() && compare(key, node.data) == 0 && root == node
      ensures node == null ==> forall n <- Contents() :: compare(key, n.data) != 0
    {
      hide Repr, Contents, Linked, Lawful, Sorted;
      var c;
      node, c := SearchClosest(key);
      if c != 0 {
        node := null;
      }
    }

    /** splay_search_closest_smaller_node: the last element that is not after the key. */
    method SearchClosestSmaller(key: T) returns (node: Node?<T>)
      requires Valid() && key in domain
      modifies `root, `tree, Repr()`left, Repr()`right, Repr()`parent
      ensures Valid() && Repr() == old(Repr()) && Contents() == old(Contents())
      ensures node == null ==> forall n <- Contents() :: compare(key, n.data) < 0
      ensures node != null ==> node in Contents() && compare(key, node.data) >= 0
                               && forall k | IndexOf(Contents(), node) < k < |Contents()| ::
                                    compare(key, Contents()[k].data) < 0
    {
      hide Repr, Contents, Linked, Lawful, Sorted;
      var c;
      node, c := SearchClosest(key);
      if c < 0 {
        Neighbours(node);
        IndexUnique(Contents(), IndexOf(Contents(), node) - 1);
        node := node.prev;
      }
    }

    /** splay_search_closest_greater_node: the first element that is not before the key. */
    method SearchClosestGreater(key: T) returns (node: Node?<T>)
      requires Valid() && key in domain
      modifies `root, `tree, Repr()`left, Repr()`right, Repr()`parent
      ensures Valid() && Repr() == old(Repr()) && Contents() == old(Contents())
      ensures node == null ==> forall n <- Contents() :: compare(key, n.data) > 0
      ensures node != null ==> node in Contents() && compare(key, node.data) <= 0
                               && forall k | 0 <= k < IndexOf(Contents(), node) :: compare(key, Contents()[k].data) > 0
    {
      hide Repr, Contents, Linked, Lawful, Sorted;
      var c;
      node, c := SearchClosest(key);
      if c > 0 {
        Neighbours(node);
        IndexUnique(Contents(), IndexOf(Contents(), node) + 1);
        node := node.next;
      }
    }

    /** The list pointers lead to the neighbours in order. */
    lemma Neighbours(n: Node<T>)
      requires Linked() && n in Contents()
      ensures n in Repr() && NoDup(Contents())
      ensures n.next == At(Contents(), IndexOf(Contents(), n) + 1)
              && n.prev == At(Contents(), IndexOf(Contents(), n) - 1)
      ensures head == At(Contents(), 0) && tail == At(Contents(), |Contents()| - 1)
    {
      NeighboursOf(Ptrs(Repr()), tree, root, head, tail, n);
    }

    /** splay_insert_top: the first node. */
    method InsertTop(node: Node<T>)
      requires Linked() && root == null
      modifies this, node
      ensures Linked() && Repr() == {node} && Contents() == [node] && generation == old(generation) + 1
    {
      EmptyTree(Ptrs(Repr()), tree);
      node.prev, node.next, node.left, node.right, node.parent := null, null, null, null, null;
      head, tail, root := node, node, node;
      count := count + 1;
      generation := generation + 1;
      tree := Fork(Leaf, node, Leaf);
      OnlyNode(node);
    }

    /** Link `node` into the list between `p` and `q`. */
    method LinkAt(node: Node<T>, p: Node?<T>, q: Node?<T>, ghost all: set<Node<T>>)
      requires node in all && (p == null || p in all) && (q == null || q in all)
      modifies `head, `tail, all`next, all`prev
      ensures Ptrs(all) == LinkBetween(old(Ptrs(all)), p, node, q)
      ensures head == (if p == null then node else old(head)) && tail == (if q == null then node else old(tail))
    {
      hide LinkBetween;
      if p == null {
        head := node;
      }
      if q == null {
        tail := node;
      }
      LinkIn(node, p, q, all);
    }

    /** Put `node` into the list just before position i; the tree does not have it yet. */
    method ThreadIn(node: Node<T>, p: Node?<T>, q: Node?<T>, ghost i: nat)
      requires Linked() && node !in Repr() && i <= |Contents()| && p == At(Contents(), i - 1) && q == At(Contents(), i)
      modifies `head, `tail, (Repr() + {node})`next, (Repr() + {node})`prev
      ensures Distinct(tree) && Shape(Ptrs(Repr()), tree, root, null)
      ensures Threaded(Ptrs(Repr() + {node}), Inserted(Contents(), i, node), head, tail)
      ensures forall n <- Contents() :: n in Repr()
    {
      hide Shape, Distinct, Threaded, Nodes, Inorder, Inserted, At, LinkBetween;
      ThreadReady(Repr(), node, tree, root, head, tail, i);
      LinkAt(node, p, q, Repr() + {node});
      ShapeFrame(old(Ptrs(Repr())), Ptrs(Repr()), tree, root, null, Repr());
    }

    /** Bring `before` to the root and put `node` above it. */
    method AddBefore(before: Node<T>, node: Node<T>, ghost i: nat)
      requires Distinct(tree) && Shape(Ptrs(Repr()), tree, root, null) && NoDup(Contents())
      requires node !in Repr() && before in Repr() && before in Contents() && i == IndexOf(Contents(), before)
      modifies `root, `tree, (Repr() + {node})`left, (Repr() + {node})`right, (Repr() + {node})`parent
      ensures Distinct(tree) && Shape(Ptrs(Repr()), tree, root, null)
      ensures Repr() == old(Repr()) + {node} && Contents() == Inserted(old(Contents()), i, node)
    {
      hide Shape, Distinct, Nodes, Inorder, NoDup, PutBefore, Inserted, Free;
      ghost var all := Repr() + {node};
      BringUp(before);
      ghost var a, b := tree.left, tree.right;
      BeforeReady(Repr(), node, tree, before, i);
      HangBefore(node, before, all);
      root := node;
      tree := Fork(a, node, Fork(Leaf, before, b));
    }

    /** Bring `after` to the root and put `node` above it. */
    method AddAfter(after: Node<T>, node: Node<T>, ghost i: nat)
      requires Distinct(tree) && Shape(Ptrs(Repr()), tree, root, null) && NoDup(Contents())
      requires node !in Repr() && after in Repr() && after in Contents() && i == IndexOf(Contents(), after)
      modifies `root, `tree, (Repr() + {node})`left, (Repr() + {node})`right, (Repr() + {node})`parent
      ensures Distinct(tree) && Shape(Ptrs(Repr()), tree, root, null)
      ensures Repr() == old(Repr()) + {node} && Contents() == Inserted(old(Contents()), i + 1, node)
    {
      hide Shape, Distinct, Nodes, Inorder, NoDup, PutAfter, Inserted, Free;
      ghost var all := Repr() + {node};
      BringUp(after);
      ghost var a, b := tree.left, tree.right;
      AfterReady(Repr(), node, tree, after, i);
      HangAfter(node, after, all);
      root := node;
      tree := Fork(Fork(a, after, Leaf), node, b);
    }

    method PlaceBefore(before: Node<T>, node: Node<T>)
      requires Linked() && node !in Repr() && before in Contents()
      modifies this, Repr(), node
      ensures Linked() && Repr() == old(Repr()) + {node} && generation == old(generation) + 1
      ensures Contents() == Inserted(old(Contents()), IndexOf(old(Contents()), before), node)
    {
      hide Nodes, Inorder, Linked, Shape, Distinct, Threaded, NoDup, Inserted, At;
      Ends();
      ghost var i := IndexOf(Contents(), before);
      Neighbours(before);
      AtIndex(Contents(), before);
      InsertedAt(Contents(), i, node, 0);
      ThreadIn(node, before.prev, before, i);
      ghost var m := Ptrs(Repr() + {node});
      AddBefore(before, node, i);
      count := count + 1;
      generation := generation + 1;
      Settled(m);
    }

    method PlaceAfter(after: Node<T>, node: Node<T>)
      requires Linked() && node !in Repr() && after in Contents()
      modifies this, Repr(), node
      ensures Linked() && Repr() == old(Repr()) + {node} && generation == old(generation) + 1
      ensures Contents() == Inserted(old(Contents()), IndexOf(old(Contents()), after) + 1, node)
    {
      hide Nodes, Inorder, Linked, Shape, Distinct, Threaded, NoDup, Inserted, At;
      Ends();
      ghost var i := IndexOf(Contents(), after);
      Neighbours(after);
      AtIndex(Contents(), after);
      InsertedAt(Contents(), i + 1, node, 0);
      ThreadIn(node, after, after.next, i + 1);
      ghost var m := Ptrs(Repr() + {node});
      AddAfter(after, node, i);
      count := count + 1;
      generation := generation + 1;
      Settled(m);
    }

    /** splay_insert_before; without a position, at the end. */
    method InsertBefore(before: Node?<T>, node: Node<T>)
      requires Linked() && node !in Repr() && (before == null || before in Contents())
      modifies this, Repr(), node
      ensures Linked() && Repr() == old(Repr()) + {node} && generation == old(generation) + 1
      ensures Contents() ==
              Inserted(old(Contents()), if before == null then |old(Contents())| else IndexOf(old(Contents()), before),
                       node)
    {
      hide Nodes, Inorder, Linked;
      Ends();
      if before != null {
        PlaceBefore(before, node);
      } else if tail != null {
        PlaceAfter(tail, node);
      } else {
        InsertTop(node);
      }
    }

    /** splay_insert_after; without a position, at the start. */
    method InsertAfter(after: Node?<T>, node: Node<T>)
      requires Linked() && node !in Repr() && (after == null || after in Contents())
      modifies this, Repr(), node
      ensures Linked() && Repr() == old(Repr()) + {node} && generation == old(generation) + 1
      ensures Contents() ==
              Inserted(old(Contents()), if after == null then 0 else IndexOf(old(Contents()), after) + 1, node)
    {
      hide Nodes, Inorder, Linked;
      Ends();
      if after != null {
        PlaceAfter(after, node);
      } else if head != null {
        PlaceBefore(head, node);
      } else {
        InsertTop(node);
      }
    }

    /** Where the list starts and ends. */
    lemma Ends()
      requires Linked()
      ensures count == |Contents()| && (root == null <==> Contents() == [])
      ensures if Contents() == [] then head == null && tail == null && root == null && Repr() == {}
              else
                && head == Contents()[0] && tail == Contents()[|Contents()| - 1]
                && head in Contents() && tail in Contents()
                && IndexOf(Contents(), head) == 0 && IndexOf(Contents(), tail) == |Contents()| - 1
    {
    }

    /** The list was made for the tree as it is now. */
    lemma Settled(m: Heap<T>)
      requires Distinct(tree) && Shape(Ptrs(Repr()), tree, root, null) && count == |Contents()|
      requires m.Keys == Repr() && Threaded(m, Contents(), head, tail)
      requires forall n <- Repr() :: n.next == m[n].next && n.prev == m[n].prev
      ensures Linked()
    {
      ThreadedSame(m, Ptrs(Repr()), Repr(), Contents(), head, tail);
    }

    /** splay_insert_node: insert a node unless an equal element is there. */
    method InsertNode(node: Node<T>) returns (inserted: bool)
      requires Valid() && node !in Repr() && node.data in domain
      modifies this, Repr(), node
      ensures Valid()
      ensures inserted <==> forall n <- old(Contents()) :: compare(node.data, n.data) != 0
      ensures !inserted ==> Contents() == old(Contents()) && Repr() == old(Repr())
      ensures inserted ==>
                Repr() == old(Repr()) + {node} && exists i | 0 <= i <= |old(Contents())| ::
                    Contents() == Inserted(old(Contents()), i, node)
    {
      hide Nodes, Inorder, Linked, Lawful, Sorted, Closest;
      node.left, node.right, node.parent, node.next, node.prev := null, null, null, null, null;
      ghost var s := Contents();
      Ends();
      if root == null {
        NoneBefore(compare, domain, s, node);
        InsertTop(node);
        return true;
      }
      var closest, c := SearchClosest(node.data);
      ghost var i := IndexOf(s, closest);
      ClosestMeans(compare, node.data, s, i);
      if c == 0 {
        return false;
      }
      SortedInsert(compare, domain, s, if c < 0 then i else i + 1, node);
      if c < 0 {
        InsertBefore(closest, node);
      } else {
        InsertAfter(closest, node);
      }
      inserted := true;
    }

    /** splay_insert: insert an element unless an equal one is there. */
    method Insert(data: T) returns (node: Node?<T>)
      requires Valid() && data in domain
      modifies this, Repr()
      ensures Valid()
      ensures node == null <==> exists n <- old(Contents()) :: compare(data, n.data) == 0
      ensures node == null ==> Contents() == old(Contents()) && Repr() == old(Repr())
      ensures node != null ==> fresh(node) && node.data == data && Repr() == old(Repr()) + {node}
                               && exists i | 0 <= i <= |old(Contents())| ::
                                    Contents() == Inserted(old(Contents()), i, node)
    {
      hide Nodes, Inorder, Linked, Lawful, Sorted, Inserted;
      NodesExist(tree);
      var n := new Node(data);
      var inserted := InsertNode(n);
      node := if inserted then n else null;
    }

    /** Link `p` and `q` with each other. */
    method LinkAway(p: Node?<T>, q: Node?<T>, ghost all: set<Node<T>>)
      requires (p == null || p in all) && (q == null || q in all)
      modifies `head, `tail, all`next, all`prev
      ensures Ptrs(all) == Bypass(old(Ptrs(all)), p, q)
      ensures head == (if p == null then q else old(head)) && tail == (if q == null then p else old(tail))
    {
      hide Bypass;
      if p == null {
        head := q;
      }
      if q == null {
        tail := p;
      }
      LinkOut(p, q, all);
    }

    /** Take the node at position i out of the list; the tree still has it. */
    method ThreadOut(node: Node<T>, ghost i: nat)
      requires Linked() && node in Contents() && i == IndexOf(Contents(), node)
      modifies `head, `tail, Repr()`next, Repr()`prev
      ensures Distinct(tree) && Shape(Ptrs(Repr()), tree, root, null)
      ensures Threaded(Ptrs(Repr()), Removed(Contents(), i), head, tail)
      ensures node in Repr() && node.prev == At(Contents(), i - 1) && node.next == At(Contents(), i + 1)
    {
      hide Shape, Distinct, Threaded, Nodes, Inorder, Removed, At, Bypass;
      ghost var all := Repr();
      OutReady(Ptrs(all), tree, root, head, tail, node, i);
      LinkAway(node.prev, node.next, all);
      ShapeFrame(old(Ptrs(all)), Ptrs(all), tree, root, null, all);
    }

    /** Remove the root. */
    method RemoveRoot(node: Node<T>)
      requires Distinct(tree) && Shape(Ptrs(Repr()), tree, node, null) && tree.Fork? && tree.node == node
               && node in Repr()
      requires node.prev == (if tree.left.Fork? then Last(tree.left) else null)
      requires tree.left.Leaf? ==> (node.next == null <==> tree.right.Leaf?)
      modifies `root, `tree, Repr()`left, Repr()`right, Repr()`parent
      ensures Distinct(tree) && Shape(Ptrs(Repr()), tree, root, null)
      ensures tree == Rest(old(tree).left, old(tree).right)
    {
      hide Shape, Distinct, Nodes, Inorder, Rest, Last;
      ghost var all, a, b := Repr(), tree.left, tree.right;
      RestOrder(a, node, b);
      if node.prev != null {
        root := TakeLeft(node, node.prev, all, a, b);
      } else if node.next != null {
        root := TakeRight(node, all, a, b);
      } else {
        NoLeft(a, b);
        LeafHere(Ptrs(all), null);
        root := null;
      }
      tree := Rest(a, b);
      ShapeFrame(Ptrs(all), Ptrs(all - {node}), tree, root, null, all - {node});
    }

    /** splay_unlink_node. */
    method UnlinkNode(node: Node<T>)
      requires Linked() && node in Contents()
      modifies this, Repr()
      ensures Linked() && Repr() == old(Repr()) - {node} && generation == old(generation) + 1
      ensures Contents() == Removed(old(Contents()), IndexOf(old(Contents()), node))
      ensures old(Valid()) ==> Valid()
    {
      hide Nodes, Inorder, Linked, Shape, Distinct, Threaded, Removed, At, NoDup, Rest, Last, Lawful, Sorted;
      ghost var s, i := Contents(), IndexOf(Contents(), node);
      SortedRemove(compare, domain, s, i);
      Ends();
      Neighbours(node);
      ThreadOut(node, i);
      ghost var m := Ptrs(Repr());
      BringUp(node);
      UnlinkReady(tree, node, s, i);
      RemoveRoot(node);
      count := count - 1;
      generation := generation + 1;
      SettledLess(m);
    }

    /** splay_unlink. */
    method Unlink(key: T) returns (node: Node?<T>)
      requires Valid() && key in domain
      modifies this, Repr()
      ensures Valid()
      ensures node == null ==> Contents() == old(Contents()) && Repr() == old(Repr())
                               && forall n <- old(Contents()) :: compare(key, n.data) != 0
      ensures node != null ==> node in old(Contents()) && compare(key, node.data) == 0 && Repr() == old(Repr()) - {node}
                               && Contents() == Removed(old(Contents()), IndexOf(old(Contents()), node))
    {
      hide Nodes, Inorder, Linked, Removed, Lawful, Sorted;
      node := Search(key);
      if node != null {
        UnlinkNode(node);
      }
    }

    lemma SettledLess(m: Heap<T>)
      requires Distinct(tree) && Shape(Ptrs(Repr()), tree, root, null) && count == |Contents()|
      requires Repr() <= m.Keys && Threaded(m, Contents(), head, tail)
      requires forall n <- Repr() :: n.next == m[n].next && n.prev == m[n].prev
      ensures Linked()
    {
      InorderNodes(tree);
      ThreadedFrame(m, Ptrs(Repr()), Contents(), head, tail);
    }

    /** splay_search_closest_node_nosplay: the tree is only read. */
    method SearchClosestNoSplay(key: T) returns (node: Node?<T>, c: int)
      requires Valid() && key in domain
      ensures node == null ==> Contents() == [] && c == 0
      ensures node != null ==> node in Contents() && c == compare(key, node.data)
                               && Closest(compare, key, Contents(), IndexOf(Contents(), node))
    {
      hide Nodes, Inorder, Lawful, Sorted, Threaded, Distinct, Zone, Closest, NoDup, Monotone;
      node := root;
      if node == null {
        EmptyTree(Ptrs(Repr()), tree);
        return null, 0;
      }
      ghost var m, t := Ptrs(Repr()), tree;
      ghost var i: nat := 0;
      ghost var parent: Node?<T> := null;
      ZoneStart(compare, domain, key, tree);
      ShapeRoot(m, t, node, parent);
      while true
        invariant node != null && t.Fork? && t.node == node && node in m
        invariant Shape(m, t, node, parent) && Zone(compare, key, Contents(), t, i)
        invariant node.left == RootOf(t.left) && node.right == RootOf(t.right)
        decreases t
      {
        c := compare(key, node.data);
        if c < 0 {
          if node.left != null {
            ZoneLeft(compare, key, Contents(), t, i);
            t, parent, node := t.left, node, node.left;
          } else {
            break;
          }
        } else if c > 0 {
          if node.right != null {
            ZoneRight(compare, key, Contents(), t, i);
            i := i + |Inorder(t.left)| + 1;
            t, parent, node := t.right, node, node.right;
          } else {
            break;
          }
        } else {
          break;
        }
        ShapeRoot(m, t, node, parent);
      }
      ZoneEnds(compare, key, Contents(), t, i);
    }
  }

  lemma ThreadReady<T>(nodes: set<Node<T>>, node: Node<T>, t: Tree<T>, root: Node?<T>, head: Node?<T>, tail: Node?<T>,
                       i: nat)
    requires Tied(Ptrs(nodes), t, root, head, tail) && nodes == Nodes(t) && node !in nodes && i <= |Inorder(t)|
    ensures var p, q, m := At(Inorder(t), i - 1), At(Inorder(t), i), Ptrs(nodes + {node});
            && (p == null || p in nodes) && (q == null || q in nodes)
            && Threaded(LinkBetween(m, p, node, q), Inserted(Inorder(t), i, node), if p == null then node else head,
                        if q == null then node else tail)
    ensures forall n <- Inorder(t) :: n in nodes
  {
    var m := Ptrs(nodes + {node});
    assert forall n <- nodes :: m[n] == Ptrs(nodes)[n];
    hide Shape, Distinct, Nodes, Inorder, NoDup, Inserted, LinkBetween;
    InorderNodes(t);
    InorderDistinct(t);
    ThreadedFrame(Ptrs(nodes), m, Inorder(t), head, tail);
    ThreadedInsert(m, Inorder(t), i, node, head, tail);
  }

  /** The parts of a tree whose root `x` is about to get a new node above it. */
  lemma AboveReady<T>(nodes: set<Node<T>>, node: Node<T>, t: Tree<T>, x: Node<T>, i: nat)
    requires Shape(Ptrs(nodes), t, x, null) && nodes == Nodes(t) && node !in nodes && t.Fork? && Distinct(t)
    requires NoDup(Inorder(t)) && x in Inorder(t) && i == IndexOf(Inorder(t), x)
    ensures var m := Ptrs(nodes + {node});
            && t == Fork(t.left, x, t.right) && x in m && Shape(m, t.left, m[x].left, x)
               && Shape(m, t.right, m[x].right, x)
            && i == |Inorder(t.left)| && x in nodes
  {
    hide Inorder, NoDup, Distinct;
    RootIndex(t, Inorder(t));
    ShapeFrame(Ptrs(nodes), Ptrs(nodes + {node}), t, x, null, nodes);
  }

  lemma InsertedBefore<T>(a: Tree<T>, x: Node<T>, b: Tree<T>, n: Node<T>)
    ensures Inorder(Fork(a, n, Fork(Leaf, x, b))) == Inserted(Inorder(Fork(a, x, b)), |Inorder(a)|, n)
    ensures Nodes(Fork(a, n, Fork(Leaf, x, b))) == Nodes(Fork(a, x, b)) + {n}
  {
    ForkOrder(a, x, b);
    ForkOrder(Leaf, x, b);
    ForkOrder(a, n, Fork(Leaf, x, b));
    NoLeaf<T>();
  }

  lemma InsertedAfter<T>(a: Tree<T>, x: Node<T>, b: Tree<T>, n: Node<T>)
    ensures Inorder(Fork(Fork(a, x, Leaf), n, b)) == Inserted(Inorder(Fork(a, x, b)), |Inorder(a)| + 1, n)
    ensures Nodes(Fork(Fork(a, x, Leaf), n, b)) == Nodes(Fork(a, x, b)) + {n}
  {
    ForkOrder(a, x, b);
    ForkOrder(a, x, Leaf);
    ForkOrder(Fork(a, x, Leaf), n, b);
    NoLeaf<T>();
  }

  lemma BeforeReady<T>(nodes: set<Node<T>>, node: Node<T>, t: Tree<T>, x: Node<T>, i: nat)
    requires Shape(Ptrs(nodes), t, x, null) && nodes == Nodes(t) && node !in nodes && t.Fork? && Distinct(t)
    requires NoDup(Inorder(t)) && x in Inorder(t) && i == IndexOf(Inorder(t), x)
    ensures var m, t' := Ptrs(nodes + {node}), Fork(t.left, node, Fork(Leaf, x, t.right));
            && x in m && x in nodes && Free(m, node, x, m[x].left) && Shape(PutBefore(m, node, x), t', node, null)
               && Distinct(t')
            && Inorder(t') == Inserted(Inorder(t), i, node) && Nodes(t') == nodes + {node}
  {
    hide Shape, Distinct, Nodes, Inorder, NoDup, PutBefore, Inserted;
    AboveReady(nodes, node, t, x, i);
    PutBeforeShape(Ptrs(nodes + {node}), t.left, x, t.right, node);
    InsertedBefore(t.left, x, t.right, node);
  }

  lemma AfterReady<T>(nodes: set<Node<T>>, node: Node<T>, t: Tree<T>, x: Node<T>, i: nat)
    requires Shape(Ptrs(nodes), t, x, null) && nodes == Nodes(t) && node !in nodes && t.Fork? && Distinct(t)
    requires NoDup(Inorder(t)) && x in Inorder(t) && i == IndexOf(Inorder(t), x)
    ensures var m, t' := Ptrs(nodes + {node}), Fork(Fork(t.left, x, Leaf), node, t.right);
            && x in m && x in nodes && Free(m, node, x, m[x].right) && Shape(PutAfter(m, node, x), t', node, null)
               && Distinct(t')
            && Inorder(t') == Inserted(Inorder(t), i + 1, node) && Nodes(t') == nodes + {node}
  {
    hide Shape, Distinct, Nodes, Inorder, NoDup, PutAfter, Inserted;
    AboveReady(nodes, node, t, x, i);
    PutAfterShape(Ptrs(nodes + {node}), t.left, x, t.right, node);
    InsertedAfter(t.left, x, t.right, node);
  }

  lemma ClosestMeans<T>(cmp: (T, T) -> int, key: T, s: seq<Node<T>>, i: nat)
    requires Closest(cmp, key, s, i)
    ensures i < |s|
    ensures forall k | 0 <= k < i :: cmp(key, s[k].data) > 0
    ensures forall k | i < k < |s| :: cmp(key, s[k].data) < 0
  {
  }

  lemma SortedInsert<T>(cmp: (T, T) -> int, domain: iset<T>, s: seq<Node<T>>, i: nat, n: Node<T>)
    requires Lawful(cmp, domain) && Sorted(cmp, domain, s) && n.data in domain && i <= |s|
    requires forall k | 0 <= k < i :: cmp(n.data, s[k].data) > 0
    requires forall k | i <= k < |s| :: cmp(n.data, s[k].data) < 0
    ensures Sorted(cmp, domain, Inserted(s, i, n))
  {
    var r := Inserted(s, i, n);
    forall j, k | 0 <= j < k < |r|
      ensures cmp(r[j].data, r[k].data) < 0
    {
      InsertedAt(s, i, n, j);
      InsertedAt(s, i, n, k);
    }
  }

  lemma NoneBefore<T>(cmp: (T, T) -> int, domain: iset<T>, s: seq<Node<T>>, n: Node<T>)
    requires s == [] && n.data in domain
    ensures Sorted(cmp, domain, [n]) && [n] == Inserted(s, 0, n)
  {
  }

  lemma {:induction false} NodesExist<T>(t: Tree<T>)
    ensures forall n <- Nodes(t) :: allocated(n)
  {
    if t.Fork? {
      NodesExist(t.left);
      NodesExist(t.right);
    }
  }

  lemma OutReady<T>(m: Heap<T>, t: Tree<T>, root: Node?<T>, head: Node?<T>, tail: Node?<T>, node: Node<T>, i: nat)
    requires Tied(m, t, root, head, tail) && node in Inorder(t) && i == IndexOf(Inorder(t), node)
    ensures node in Nodes(t) && node in m
    ensures var p, q := m[node].prev, m[node].next;
            && p == At(Inorder(t), i - 1) && q == At(Inorder(t), i + 1)
            && (p == null || p in m) && (q == null || q in m)
            && node in Bypass(m, p, q) && Bypass(m, p, q)[node] == m[node]
            && Threaded(Bypass(m, p, q), Removed(Inorder(t), i), if p == null then q else head,
                        if q == null then p else tail)
  {
    hide Shape, Distinct, Nodes, Inorder, Removed, Bypass;
    NeighboursOf(m, t, root, head, tail, node);
    ThreadedRemove(m, Inorder(t), i, head, tail);
    ThreadedAt(m, Inorder(t), head, tail, i - 1);
    ThreadedAt(m, Inorder(t), head, tail, i + 1);
    BypassPtrs(m, m[node].prev, m[node].next);
  }

  lemma NoLeft<T>(a: Tree<T>, b: Tree<T>)
    requires a.Leaf?
    ensures Rest(a, b) == b
  {
  }

  lemma TakeLeftReady<T>(m: Heap<T>, a: Tree<T>, x: Node<T>, b: Tree<T>)
    requires Distinct(Fork(a, x, b)) && Shape(m, Fork(a, x, b), x, null) && a.Fork?
    ensures x in m && m[x].left == a.node && Last(a) in m && Last(a) != x && a.node in m && a.node != x
    ensures m[x].right == null || (m[x].right in m && m[x].right != x)
    ensures Shape(ExciseLeft(m, x, Last(a)), Rest(a, b), a.node, null)
  {
    hide Shape, Distinct, Nodes, Rest, Last, ExciseLeft;
    ForkParts(m, a, x, b, x, null);
    SubDistinct(a, x, b);
    ExciseLeftShape(m, a, x, b);
    AppendOrder(a, b);
    ShapeKeys(m, a, m[x].left, x);
    ShapeKeys(m, b, m[x].right, x);
  }

  /** The left subtree takes over, with the right subtree hung from the predecessor. */
  method TakeLeft<T>(node: Node<T>, prev: Node<T>, ghost all: set<Node<T>>, ghost a: Tree<T>, ghost b: Tree<T>)
    returns (root: Node<T>)
    requires Distinct(Fork(a, node, b)) && Shape(Ptrs(all), Fork(a, node, b), node, null) && a.Fork? && prev == Last(a)
    modifies all`left, all`right, all`parent
    ensures Shape(Ptrs(all), Rest(a, b), root, null)
  {
    hide Shape, Distinct, Rest, Last, SetParent, SetRight, Reparent;
    TakeLeftReady(Ptrs(all), a, node, b);
    root := node.left;
    AssignParent(root, null, all);
    MoveRight(prev, node, all);
  }

  method AssignParent<T>(n: Node<T>, v: Node?<T>, ghost all: set<Node<T>>)
    requires n in all
    modifies all`parent
    ensures Ptrs(all) == SetParent(old(Ptrs(all)), n, v)
  {
    n.parent := v;
  }

  /** The right subtree takes over. */
  method TakeRight<T>(node: Node<T>, ghost all: set<Node<T>>, ghost a: Tree<T>, ghost b: Tree<T>)
    returns (root: Node<T>)
    requires Distinct(Fork(a, node, b)) && Shape(Ptrs(all), Fork(a, node, b), node, null) && a.Leaf? && b.Fork?
    modifies all`parent
    ensures Shape(Ptrs(all), Rest(a, b), root, null)
  {
    hide Shape, Distinct, Nodes, SetParent;
    ForkParts(Ptrs(all), a, node, b, node, null);
    SubDistinct(a, node, b);
    ExciseRightShape(Ptrs(all), node, b);
    root := node.right;
    AssignParent(root, null, all);
  }

  lemma SortedRemove<T>(cmp: (T, T) -> int, domain: iset<T>, s: seq<Node<T>>, i: nat)
    requires i < |s|
    ensures Sorted(cmp, domain, s) ==> Sorted(cmp, domain, Removed(s, i))
  {
    if Sorted(cmp, domain, s) {
      var r := Removed(s, i);
      assert forall j | 0 <= j < |r| :: r[j] == s[if j < i then j else j + 1];
    }
  }

  /** The list pointers of a root tell which subtrees it has. */
  lemma UnlinkReady<T>(t: Tree<T>, node: Node<T>, s: seq<Node<T>>, i: nat)
    requires t.Fork? && t.node == node && Distinct(t) && Inorder(t) == s && NoDup(s) && node in s
             && i == IndexOf(s, node)
    ensures At(s, i - 1) == (if t.left.Fork? then Last(t.left) else null)
    ensures t.left.Leaf? ==> (At(s, i + 1) == null <==> t.right.Leaf?)
    ensures Inorder(Rest(t.left, t.right)) == Removed(s, i) && |Removed(s, i)| == |s| - 1
    ensures Nodes(Rest(t.left, t.right)) == Nodes(t) - {node}
  {
    RootIndex(t, s);
    RestOrder(t.left, node, t.right);
    ForkOrder(t.left, node, t.right);
    NoLeaf<T>();
    hide Nodes, Distinct, Rest, Last, Inorder, At, Removed;
    Middle(Inorder(t.left), node, Inorder(t.right));
  }

  /** The nodes of `t` are those of `s` from position i on; what is before them is before the
      key, what is after them is after it. */
  ghost predicate Zone<T>(cmp: (T, T) -> int, key: T, s: seq<Node<T>>, t: Tree<T>, i: nat) {
    && i + |Inorder(t)| <= |s| && s[i..i + |Inorder(t)|] == Inorder(t)
    && Between(cmp, key, s, i, |s| - i - |Inorder(t)|) && Monotone(cmp, key, s) && NoDup(s)
  }

  lemma ZoneStart<T>(cmp: (T, T) -> int, domain: iset<T>, key: T, t: Tree<T>)
    requires Lawful(cmp, domain) && Sorted(cmp, domain, Inorder(t)) && key in domain && Distinct(t)
    ensures Zone(cmp, key, Inorder(t), t, 0)
  {
    SortedMonotone(cmp, domain, Inorder(t), key);
    InorderDistinct(t);
  }

  /** Where the parts of a tree lie in the sequence. */
  lemma ZoneParts<T>(cmp: (T, T) -> int, key: T, s: seq<Node<T>>, t: Tree<T>, i: nat)
    requires Zone(cmp, key, s, t, i) && t.Fork?
    ensures var l, r := |Inorder(t.left)|, |Inorder(t.right)|;
            && i + l + 1 + r <= |s| && |Inorder(t)| == l + 1 + r && s[i + l] == t.node
            && s[i..i + l] == Inorder(t.left) && s[i + l + 1..i + l + 1 + r] == Inorder(t.right)
  {
    hide Inorder, Between, Monotone, NoDup;
    ForkOrder(t.left, t.node, t.right);
    Subparts(s, i, i + |Inorder(t)|, Inorder(t.left), t.node, Inorder(t.right));
  }

  lemma Subparts<X>(s: seq<X>, i: nat, e: nat, a: seq<X>, n: X, b: seq<X>)
    requires i <= e <= |s| && s[i..e] == a + [n] + b
    ensures e == i + |a| + 1 + |b| && s[i..i + |a|] == a && s[i + |a|] == n && s[i + |a| + 1..e] == b
  {
    var z := s[i..e];
    assert forall k | 0 <= k < |z| :: s[i + k] == z[k];
    assert forall k | 0 <= k < |a| :: s[i..i + |a|][k] == z[k] == a[k];
    assert forall k | 0 <= k < |b| :: s[i + |a| + 1..e][k] == z[|a| + 1 + k] == b[k];
  }

  lemma ZoneLeft<T>(cmp: (T, T) -> int, key: T, s: seq<Node<T>>, t: Tree<T>, i: nat)
    requires Zone(cmp, key, s, t, i) && t.Fork? && cmp(key, t.node.data) < 0
    ensures Zone(cmp, key, s, t.left, i)
  {
    hide Inorder, NoDup;
    ZoneParts(cmp, key, s, t, i);
    assert s[i + |Inorder(t.left)|] == t.node;
  }

  lemma ZoneRight<T>(cmp: (T, T) -> int, key: T, s: seq<Node<T>>, t: Tree<T>, i: nat)
    requires Zone(cmp, key, s, t, i) && t.Fork? && cmp(key, t.node.data) > 0
    ensures Zone(cmp, key, s, t.right, i + |Inorder(t.left)| + 1)
  {
    hide Inorder, NoDup;
    ZoneParts(cmp, key, s, t, i);
    assert s[i + |Inorder(t.left)|] == t.node;
  }

  lemma ZoneEnds<T>(cmp: (T, T) -> int, key: T, s: seq<Node<T>>, t: Tree<T>, i: nat)
    requires Zone(cmp, key, s, t, i) && t.Fork?
    requires cmp(key, t.node.data) < 0 ==> t.left == Leaf
    requires cmp(key, t.node.data) > 0 ==> t.right == Leaf
    ensures t.node in s && Closest(cmp, key, s, IndexOf(s, t.node))
  {
    NoLeaf<T>();
    hide Inorder;
    ZoneParts(cmp, key, s, t, i);
    var k := i + |Inorder(t.left)|;
    assert s[k] == t.node && IndexOf(s, t.node) == k;
  }

  lemma Middle<T>(a: seq<Node<T>>, n: Node<T>, b: seq<Node<T>>)
    ensures var s := a + [n] + b;
            && Removed(s, |a|) == a + b
            && At(s, |a| - 1) == (if a == [] then null else a[|a| - 1]) && (At(s, |a| + 1) == null <==> b == [])
  {
  }

  lemma OnlyNode<T>(n: Node<T>)
    ensures Distinct(Fork(Leaf, n, Leaf)) && Nodes(Fork(Leaf, n, Leaf)) == {n} && Inorder(Fork(Leaf, n, Leaf)) == [n]
  {
  }

  lemma NeighboursOf<T>(m: Heap<T>, t: Tree<T>, root: Node?<T>, head: Node?<T>, tail: Node?<T>, n: Node<T>)
    requires Tied(m, t, root, head, tail) && n in Inorder(t)
    ensures n in Nodes(t) && n in m && NoDup(Inorder(t))
    ensures m[n].next == At(Inorder(t), IndexOf(Inorder(t), n) + 1)
            && m[n].prev == At(Inorder(t), IndexOf(Inorder(t), n) - 1)
    ensures head == At(Inorder(t), 0) && tail == At(Inorder(t), |Inorder(t)| - 1)
  {
    hide Shape, Inorder, Nodes;
    InorderNodes(t);
    InorderDistinct(t);
    ThreadedAt(m, Inorder(t), head, tail, IndexOf(Inorder(t), n));
  }

  lemma IndexUnique<T>(s: seq<Node<T>>, i: int)
    requires NoDup(s)
    ensures 0 <= i < |s| ==> s[i] in s && IndexOf(s, s[i]) == i
  {
  }

  lemma EmptyTree<T>(m: Heap<T>, t: Tree<T>)
    requires Shape(m, t, null, null)
    ensures t == Leaf && Inorder(t) == [] && Nodes(t) == {}
  {
  }

  lemma RootIndex<T>(t: Tree<T>, s: seq<Node<T>>)
    requires t.Fork? && Inorder(t) == s && NoDup(s)
    ensures t.node in s && IndexOf(s, t.node) == |Inorder(t.left)|
  {
    ForkOrder(t.left, t.node, t.right);
    assert s[|Inorder(t.left)|] == t.node;
  }

  /** Only tree pointers differ. */
  lemma ThreadedSame<T>(m: Heap<T>, m': Heap<T>, all: set<Node<T>>, s: seq<Node<T>>, head: Node?<T>, tail: Node?<T>)
    requires Threaded(m, s, head, tail) && m.Keys == m'.Keys == all
    requires forall n <- all :: m'[n].next == m[n].next && m'[n].prev == m[n].prev
    ensures Threaded(m', s, head, tail)
  {
  }

  lemma TopFits<T>(m: Heap<T>, t: Tree<T>, p: Node?<T>)
    requires Shape(m, t, p, null)
    ensures Hangs(m, Top, p) && Shape(m, t, p, Owner<T>(Top)) && CtxDistinct<T>(Top) && CtxNodes<T>(Top) !! Nodes(t)
  {
  }

  lemma FocusTop<T>(m: Heap<T>, a: Tree<T>, x: Node<T>, b: Tree<T>)
    requires Focus(m, Top, a, x, b)
    ensures var t := Fork(a, x, b);
            Distinct(t) && Shape(m, t, x, null) && Inorder(t) == Sequence(Top, a, x, b)
              && Nodes(t) == AllNodes(Top, a, x, b)
  {
    TopOrder<T>();
  }
}
