/** Pointer surgery on splay tree nodes: the single steps of src/splay_tree.c as functions on
    the pointers, and what each of them does to the tree. */
module SplaySteps {
  import opened SplayShape

  ghost function SetLeft<T>(m: Heap<T>, n: Node<T>, v: Node?<T>): Heap<T>
    requires n in m
  {
    m[n := m[n].(left := v)]
  }

  ghost function SetRight<T>(m: Heap<T>, n: Node<T>, v: Node?<T>): Heap<T>
    requires n in m
  {
    m[n := m[n].(right := v)]
  }

  ghost function SetParent<T>(m: Heap<T>, n: Node<T>, v: Node?<T>): Heap<T>
    requires n in m
  {
    m[n := m[n].(parent := v)]
  }

  /** Set the parent of `p` unless it is null. */
  ghost function Reparent<T>(m: Heap<T>, p: Node?<T>, v: Node?<T>): Heap<T>
    requires p == null || p in m
  {
    if p == null then m else SetParent(m, p, v)
  }

  /** The heaps differ at most in the tree pointers of the nodes in `s`. */
  ghost predicate SameOutside<T>(m: Heap<T>, m': Heap<T>, s: set<Node<T>>) {
    && m'.Keys == m.Keys
    && (forall n <- m.Keys :: m'[n].next == m[n].next && m'[n].prev == m[n].prev)
    && (forall n | n in m && n !in s :: m'[n] == m[n])
  }

  /** Only nodes of the heap are in a tree that has a shape. */
  lemma {:induction false} ShapeKeys<T>(m: Heap<T>, t: Tree<T>, p: Node?<T>, parent: Node?<T>)
    requires Shape(m, t, p, parent)
    ensures Nodes(t) <= m.Keys
    ensures p != null <==> t.Fork?
    ensures p != null ==> p == t.node && p in Nodes(t)
    decreases t
  {
    match t
    case Leaf =>
    case Fork(l, n, r) =>
      ShapeKeys(m, l, m[n].left, n);
      ShapeKeys(m, r, m[n].right, n);
  }

  lemma {:induction false} HangsKeys<T>(m: Heap<T>, c: Ctx<T>, x: Node?<T>)
    requires Hangs(m, c, x)
    ensures CtxNodes(c) <= m.Keys
    decreases c
  {
    match c
    case Top =>
    case LeftOf(up, n, r) =>
      ShapeKeys(m, r, m[n].right, n);
      HangsKeys(m, up, n);
    case RightOf(up, l, n) =>
      ShapeKeys(m, l, m[n].left, n);
      HangsKeys(m, up, n);
  }

  /** Lift `child`, the left child of `parent`, above it. */
  ghost function LiftLeft<T>(m: Heap<T>, child: Node<T>, parent: Node<T>): Heap<T>
    requires child in m && parent in m && (m[child].right == null || m[child].right in m)
  {
    var b := m[child].right;
    SetParent(SetRight(Reparent(SetLeft(m, parent, b), b, parent), child, parent), parent, child)
  }

  /** Lift `child`, the right child of `parent`, above it. */
  ghost function LiftRight<T>(m: Heap<T>, child: Node<T>, parent: Node<T>): Heap<T>
    requires child in m && parent in m && (m[child].left == null || m[child].left in m)
  {
    var b := m[child].left;
    SetParent(SetLeft(Reparent(SetRight(m, parent, b), b, parent), child, parent), parent, child)
  }

  /** A subtree, possibly empty, that is neither of the two nodes. */
  ghost predicate Free<T>(m: Heap<T>, child: Node<T>, parent: Node<T>, p: Node?<T>) {
    p == null || (p in m && p != child && p != parent)
  }

  ghost function Opt<T>(p: Node?<T>): set<Node<T>> {
    if p == null then {} else {p}
  }

  /** Only the parent pointer of the root differs. */
  lemma Reparented<T>(m: Heap<T>, m': Heap<T>, t: Tree<T>, p: Node?<T>, was: Node?<T>, parent: Node?<T>)
    requires Shape(m, t, p, was) && Distinct(t) && Nodes(t) <= m'.Keys && Agree(m, m', Nodes(t) - Opt(p))
    requires p != null && p in m && p in m' ==>
               m'[p].left == m[p].left && m'[p].right == m[p].right && m'[p].parent == parent
    ensures Shape(m', t, p, parent)
  {
    if p != null {
      ShapeKeys(m, t, p, was);
      ShapeFrame(m, m', t.left, m[p].left, p, Nodes(t.left));
      ShapeFrame(m, m', t.right, m[p].right, p, Nodes(t.right));
    }
  }

  lemma ForkShape<T>(m: Heap<T>, l: Tree<T>, n: Node<T>, r: Tree<T>, parent: Node?<T>)
    requires n in m && m[n].parent == parent && Shape(m, l, m[n].left, n) && Shape(m, r, m[n].right, n)
    ensures Shape(m, Fork(l, n, r), n, parent)
  {
  }

  /** The pointers after LiftLeft. */
  lemma LiftLeftPtrs<T>(m: Heap<T>, child: Node<T>, parent: Node<T>)
    requires child in m && parent in m && child != parent
    requires Free(m, child, parent, m[child].right)
    ensures var p := m[child].right;
            var m' := LiftLeft(m, child, parent);
            && SameOutside(m, m', {child, parent} + Opt(p))
            && m'[child].right == parent && m'[child].left == m[child].left && m'[child].parent == m[child].parent
            && m'[parent].left == p && m'[parent].right == m[parent].right && m'[parent].parent == child
            && (p != null ==> m'[p].left == m[p].left && m'[p].right == m[p].right && m'[p].parent == parent)
  {
  }

  lemma LiftLeftShape<T>(m: Heap<T>, child: Node<T>, parent: Node<T>, a: Tree<T>, b: Tree<T>, c: Tree<T>)
    requires child in m && parent in m && Distinct(Fork(Fork(a, child, b), parent, c))
    requires Shape(m, a, m[child].left, child) && Shape(m, b, m[child].right, child)
             && Shape(m, c, m[parent].right, parent)
    ensures Free(m, child, parent, m[child].right)
    ensures var m' := LiftLeft(m, child, parent);
            && SameOutside(m, m', {child, parent} + Nodes(b))
            && m'[child].right == parent && m'[child].left == m[child].left && m'[child].parent == m[child].parent
            && Shape(m', a, m'[child].left, child) && Shape(m', Fork(b, parent, c), parent, child)
  {
    hide Shape, LiftLeft;
    var p := m[child].right;
    ShapeKeys(m, a, m[child].left, child);
    ShapeKeys(m, b, p, child);
    ShapeKeys(m, c, m[parent].right, parent);
    LiftLeftPtrs(m, child, parent);
    var m' := LiftLeft(m, child, parent);
    ShapeFrame(m, m', a, m[child].left, child, Nodes(a));
    ShapeFrame(m, m', c, m[parent].right, parent, Nodes(c));
    Reparented(m, m', b, p, child, parent);
    ForkShape(m', b, parent, c, child);
  }

  /** The pointers after LiftRight. */
  lemma LiftRightPtrs<T>(m: Heap<T>, child: Node<T>, parent: Node<T>)
    requires child in m && parent in m && child != parent
    requires Free(m, child, parent, m[child].left)
    ensures var p := m[child].left;
            var m' := LiftRight(m, child, parent);
            && SameOutside(m, m', {child, parent} + Opt(p))
            && m'[child].left == parent && m'[child].right == m[child].right && m'[child].parent == m[child].parent
            && m'[parent].right == p && m'[parent].left == m[parent].left && m'[parent].parent == child
            && (p != null ==> m'[p].left == m[p].left && m'[p].right == m[p].right && m'[p].parent == parent)
  {
  }

  lemma LiftRightShape<T>(m: Heap<T>, child: Node<T>, parent: Node<T>, a: Tree<T>, b: Tree<T>, c: Tree<T>)
    requires child in m && parent in m && Distinct(Fork(c, parent, Fork(b, child, a)))
    requires Shape(m, a, m[child].right, child) && Shape(m, b, m[child].left, child)
             && Shape(m, c, m[parent].left, parent)
    ensures Free(m, child, parent, m[child].left)
    ensures var m' := LiftRight(m, child, parent);
            && SameOutside(m, m', {child, parent} + Nodes(b))
            && m'[child].left == parent && m'[child].right == m[child].right && m'[child].parent == m[child].parent
            && Shape(m', a, m'[child].right, child) && Shape(m', Fork(c, parent, b), parent, child)
  {
    hide Shape, LiftRight;
    var p := m[child].left;
    ShapeKeys(m, a, m[child].right, child);
    ShapeKeys(m, b, p, child);
    ShapeKeys(m, c, m[parent].left, parent);
    LiftRightPtrs(m, child, parent);
    var m' := LiftRight(m, child, parent);
    ShapeFrame(m, m', a, m[child].right, child, Nodes(a));
    ShapeFrame(m, m', c, m[parent].left, parent, Nodes(c));
    Reparented(m, m', b, p, child, parent);
    ForkShape(m', c, parent, b, child);
  }
}
