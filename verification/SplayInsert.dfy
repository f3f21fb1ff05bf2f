/** The tree surgery of splay_insert_before, splay_insert_after and splay_unlink_node, once the
    node concerned is the root. */
module SplayInsert {
  import opened SplayShape
  import opened SplaySteps
  import opened SplayBottomUp
  import opened SplayRotate
  import opened SplayTopDown

  /** `x`, with what is left of it taken away, becomes the right child of the new root `n`. */
  ghost function PutBefore<T>(m: Heap<T>, n: Node<T>, x: Node<T>): Heap<T>
    requires n in m && x in m && (m[x].left == null || m[x].left in m)
  {
    var p := m[x].left;
    var m1 := SetParent(SetRight(m, n, x), x, n);
    var m2 := Reparent(SetLeft(m1, n, p), p, n);
    SetParent(SetLeft(m2, x, null), n, null)
  }

  ghost function PutAfter<T>(m: Heap<T>, n: Node<T>, x: Node<T>): Heap<T>
    requires n in m && x in m && (m[x].right == null || m[x].right in m)
  {
    var p := m[x].right;
    var m1 := SetParent(SetLeft(m, n, x), x, n);
    var m2 := Reparent(SetRight(m1, n, p), p, n);
    SetParent(SetRight(m2, x, null), n, null)
  }

  lemma PutBeforePtrs<T>(m: Heap<T>, n: Node<T>, x: Node<T>)
    requires n in m && x in m && n != x && Free(m, n, x, m[x].left)
    ensures var p, m' := m[x].left, PutBefore(m, n, x);
            && SameOutside(m, m', {n, x} + Opt(p))
            && m'[n].left == p && m'[n].right == x && m'[n].parent == null
            && m'[x].left == null && m'[x].right == m[x].right && m'[x].parent == n
            && (p != null ==> m'[p].left == m[p].left && m'[p].right == m[p].right && m'[p].parent == n)
  {
  }

  lemma PutAfterPtrs<T>(m: Heap<T>, n: Node<T>, x: Node<T>)
    requires n in m && x in m && n != x && Free(m, n, x, m[x].right)
    ensures var p, m' := m[x].right, PutAfter(m, n, x);
            && SameOutside(m, m', {n, x} + Opt(p))
            && m'[n].right == p && m'[n].left == x && m'[n].parent == null
            && m'[x].right == null && m'[x].left == m[x].left && m'[x].parent == n
            && (p != null ==> m'[p].left == m[p].left && m'[p].right == m[p].right && m'[p].parent == n)
  {
  }

  lemma PutBeforeShape<T>(m: Heap<T>, a: Tree<T>, x: Node<T>, b: Tree<T>, n: Node<T>)
    requires x in m && Shape(m, a, m[x].left, x) && Shape(m, b, m[x].right, x) && Distinct(Fork(a, x, b))
    requires n in m && n !in Nodes(Fork(a, x, b))
    ensures Free(m, n, x, m[x].left)
    ensures Shape(PutBefore(m, n, x), Fork(a, n, Fork(Leaf, x, b)), n, null)
    ensures Distinct(Fork(a, n, Fork(Leaf, x, b)))
  {
    SubDistinct(a, x, b);
    hide Shape, PutBefore, Distinct, Nodes;
    ShapeKeys(m, a, m[x].left, x);
    ShapeKeys(m, b, m[x].right, x);
    PutBeforePtrs(m, n, x);
    var m' := PutBefore(m, n, x);
    Reparented(m, m', a, m[x].left, x, n);
    ShapeFrame(m, m', b, m[x].right, x, Nodes(b));
    LeafHere(m', x);
    ForkShape(m', Leaf, x, b, n);
    ForkShape(m', a, n, Fork(Leaf, x, b), null);
    NoLeaf<T>();
    ForkDistinct(Leaf, x, b);
    ForkDistinct(a, n, Fork(Leaf, x, b));
  }

  lemma PutAfterShape<T>(m: Heap<T>, a: Tree<T>, x: Node<T>, b: Tree<T>, n: Node<T>)
    requires x in m && Shape(m, a, m[x].left, x) && Shape(m, b, m[x].right, x) && Distinct(Fork(a, x, b))
    requires n in m && n !in Nodes(Fork(a, x, b))
    ensures Free(m, n, x, m[x].right)
    ensures Shape(PutAfter(m, n, x), Fork(Fork(a, x, Leaf), n, b), n, null)
    ensures Distinct(Fork(Fork(a, x, Leaf), n, b))
  {
    SubDistinct(a, x, b);
    hide Shape, PutAfter, Distinct, Nodes;
    ShapeKeys(m, a, m[x].left, x);
    ShapeKeys(m, b, m[x].right, x);
    PutAfterPtrs(m, n, x);
    var m' := PutAfter(m, n, x);
    Reparented(m, m', b, m[x].right, x, n);
    ShapeFrame(m, m', a, m[x].left, x, Nodes(a));
    LeafHere(m', x);
    ForkShape(m', a, x, Leaf, n);
    ForkShape(m', Fork(a, x, Leaf), n, b, null);
    NoLeaf<T>();
    ForkDistinct(a, x, Leaf);
    ForkDistinct(Fork(a, x, Leaf), n, b);
  }

  lemma NoLeaf<T>()
    ensures Distinct<T>(Leaf) && Nodes<T>(Leaf) == {} && Inorder<T>(Leaf) == []
  {
  }

  /** The rightmost node. */
  ghost function Last<T>(t: Tree<T>): Node<T>
    requires t.Fork?
  {
    if t.right.Leaf? then t.node else Last(t.right)
  }

  /** `b` hung from the rightmost node. */
  ghost function Append<T>(t: Tree<T>, b: Tree<T>): Tree<T>
    requires t.Fork?
  {
    if t.right.Leaf? then Fork(t.left, t.node, b) else Fork(t.left, t.node, Append(t.right, b))
  }

  lemma {:induction false} AppendOrder<T>(t: Tree<T>, b: Tree<T>)
    requires t.Fork?
    ensures Inorder(Append(t, b)) == Inorder(t) + Inorder(b)
    ensures Nodes(Append(t, b)) == Nodes(t) + Nodes(b)
    ensures Inorder(t) != [] && Inorder(t)[|Inorder(t)| - 1] == Last(t) && Last(t) in Nodes(t)
  {
    NoLeaf<T>();
    ForkOrder(t.left, t.node, t.right);
    if t.right.Leaf? {
      ForkOrder(t.left, t.node, b);
    } else {
      AppendOrder(t.right, b);
      ForkOrder(t.left, t.node, Append(t.right, b));
      var u, v, w := Inorder(t.left) + [t.node], Inorder(t.right), Inorder(b);
      assert u + (v + w) == u + v + w;
    }
  }

  lemma {:induction false} AppendDistinct<T>(t: Tree<T>, b: Tree<T>)
    requires t.Fork? && Distinct(t) && Distinct(b) && Nodes(t) !! Nodes(b)
    ensures Distinct(Append(t, b))
  {
    if !t.right.Leaf? {
      AppendDistinct(t.right, b);
      AppendOrder(t.right, b);
    }
  }

  /** Hanging `b` from the rightmost node of `t`. */
  lemma {:induction false} AppendShape<T>(m: Heap<T>, m': Heap<T>, t: Tree<T>, b: Tree<T>, p: Node?<T>,
                                          parent: Node?<T>, q: Node?<T>)
    requires t.Fork? && Distinct(t) && Shape(m, t, p, parent)
    requires Nodes(t) <= m'.Keys && Agree(m, m', Nodes(t) - {Last(t)})
    requires Last(t) in Nodes(t) && Last(t) in m && m'[Last(t)].left == m[Last(t)].left
             && m'[Last(t)].parent == m[Last(t)].parent
    requires m'[Last(t)].right == q && Shape(m', b, q, Last(t))
    ensures Shape(m', Append(t, b), p, parent)
    decreases t
  {
    var n := t.node;
    if t.right.Leaf? {
      ShapeFrame(m, m', t.left, m[n].left, n, Nodes(t.left));
    } else {
      AppendOrder(t.right, b);
      ShapeFrame(m, m', t.left, m[n].left, n, Nodes(t.left));
      AppendShape(m, m', t.right, b, m[n].right, n, q);
    }
  }

  /** What is left of a tree without its root. */
  ghost function Rest<T>(a: Tree<T>, b: Tree<T>): Tree<T> {
    if a.Fork? then Append(a, b) else b
  }

  lemma RestOrder<T>(a: Tree<T>, x: Node<T>, b: Tree<T>)
    requires Distinct(Fork(a, x, b))
    ensures Inorder(Rest(a, b)) == Inorder(a) + Inorder(b) && Distinct(Rest(a, b))
    ensures Nodes(Rest(a, b)) == Nodes(Fork(a, x, b)) - {x}
    ensures a.Fork? ==> |Inorder(a)| > 0 && Inorder(a)[|Inorder(a)| - 1] == Last(a)
    ensures a.Leaf? ==> Inorder(a) == []
    ensures b.Fork? ==> |Inorder(b)| > 0
  {
    SubDistinct(a, x, b);
    if a.Fork? {
      AppendOrder(a, b);
      AppendDistinct(a, b);
    } else {
      NoLeaf<T>();
    }
    if b.Fork? {
      ForkOrder(b.left, b.node, b.right);
    }
  }

  /** The left subtree becomes the tree, with the right subtree hung from the predecessor of `x`. */
  ghost function ExciseLeft<T>(m: Heap<T>, x: Node<T>, prev: Node<T>): Heap<T>
    requires x in m && prev in m && m[x].left != null && m[x].left in m && (m[x].right == null || m[x].right in m)
  {
    Reparent(SetRight(SetParent(m, m[x].left, null), prev, m[x].right), m[x].right, prev)
  }

  lemma ExciseLeftShape<T>(m: Heap<T>, a: Tree<T>, x: Node<T>, b: Tree<T>)
    requires x in m && Shape(m, a, m[x].left, x) && Shape(m, b, m[x].right, x) && Distinct(Fork(a, x, b)) && a.Fork?
    ensures m[x].left == a.node && a.node in m && Last(a) in m && (m[x].right == null || m[x].right in m)
    ensures Shape(ExciseLeft(m, x, Last(a)), Rest(a, b), a.node, null)
  {
    SubDistinct(a, x, b);
    AppendOrder(a, b);
    ShapeKeys(m, a, m[x].left, x);
    ShapeKeys(m, b, m[x].right, x);
    hide Shape, Distinct, Nodes;
    var q, last := m[x].right, Last(a);
    var m1 := SetParent(m, a.node, null);
    var m' := ExciseLeft(m, x, last);
    Reparented(m, m1, a, a.node, x, null);
    if q == null {
      LeafShape(m', b, x, last) by {
        ShapeFrame(m, m', b, q, x, Nodes(b));
      }
    } else {
      Reparented(m, m', b, q, x, last);
    }
    AppendShape(m1, m', a, b, a.node, null, q);
  }

  lemma ExciseRightShape<T>(m: Heap<T>, x: Node<T>, b: Tree<T>)
    requires x in m && Shape(m, b, m[x].right, x) && Distinct(b) && b.Fork?
    ensures m[x].right == b.node && b.node in m && Shape(SetParent(m, b.node, null), b, b.node, null)
  {
    ShapeKeys(m, b, m[x].right, x);
    Reparented(m, SetParent(m, b.node, null), b, b.node, x, null);
  }
}
