/** The tree part of src/splay_tree.c: nodes linked by left, right and parent pointers.

The pointers of a set of nodes are read off as a map.  A ghost value of type Tree mirrors
them, and a Ctx mirrors a tree with one subtree cut out: `Shape` and `Hangs` say that the
pointers agree with the mirror.
*/
module SplayShape {

  class Node<T> {
    var next: Node?<T>
    var prev: Node?<T>
    var parent: Node?<T>
    var left: Node?<T>
    var right: Node?<T>
    const data: T

    constructor (d: T)
      ensures next == null && prev == null && parent == null && left == null && right == null && data == d
    {
      next, prev, parent, left, right, data := null, null, null, null, null, d;
    }
  }

  /** The pointers of one node. */
  datatype Ptr<T> = Ptr(next: Node?<T>, prev: Node?<T>, parent: Node?<T>, left: Node?<T>, right: Node?<T>)

  type Heap<T> = map<Node<T>, Ptr<T>>

  ghost function PtrOf<T>(n: Node<T>): Ptr<T>
    reads n
  {
    Ptr(n.next, n.prev, n.parent, n.left, n.right)
  }

  ghost function Ptrs<T>(s: set<Node<T>>): Heap<T>
    reads s
  {
    map n | n in s :: PtrOf(n)
  }

  datatype Tree<T> = Leaf | Fork(left: Tree<T>, node: Node<T>, right: Tree<T>)

  ghost function Nodes<T>(t: Tree<T>): set<Node<T>> {
    match t
    case Leaf => {}
    case Fork(l, n, r) => Nodes(l) + {n} + Nodes(r)
  }

  ghost function Inorder<T>(t: Tree<T>): seq<Node<T>> {
    match t
    case Leaf => []
    case Fork(l, n, r) => Inorder(l) + [n] + Inorder(r)
  }

  /** No node occurs twice. */
  ghost predicate Distinct<T>(t: Tree<T>) {
    match t
    case Leaf => true
    case Fork(l, n, r) =>
      && Distinct(l) && Distinct(r)
      && n !in Nodes(l) && n !in Nodes(r) && Nodes(l) !! Nodes(r)
  }

  /** The pointers reachable from `p` form the tree `t`, hanging from `parent`. */
  ghost predicate Shape<T>(m: Heap<T>, t: Tree<T>, p: Node?<T>, parent: Node?<T>) {
    match t
    case Leaf => p == null
    case Fork(l, n, r) =>
      && p == n && n in m && m[n].parent == parent
      && Shape(m, l, m[n].left, n) && Shape(m, r, m[n].right, n)
  }

  /** A tree without one of its subtrees: the hole is the left or the right child of `node`. */
  datatype Ctx<T> =
    | Top
    | LeftOf(up: Ctx<T>, node: Node<T>, right: Tree<T>)
    | RightOf(up: Ctx<T>, left: Tree<T>, node: Node<T>)

  ghost function CtxNodes<T>(c: Ctx<T>): set<Node<T>> {
    match c
    case Top => {}
    case LeftOf(up, n, r) => CtxNodes(up) + {n} + Nodes(r)
    case RightOf(up, l, n) => CtxNodes(up) + {n} + Nodes(l)
  }

  ghost predicate CtxDistinct<T>(c: Ctx<T>) {
    match c
    case Top => true
    case LeftOf(up, n, r) =>
      && CtxDistinct(up) && Distinct(r)
      && n !in CtxNodes(up) && n !in Nodes(r) && CtxNodes(up) !! Nodes(r)
    case RightOf(up, l, n) =>
      && CtxDistinct(up) && Distinct(l)
      && n !in CtxNodes(up) && n !in Nodes(l) && CtxNodes(up) !! Nodes(l)
  }

  /** The node whose child is missing. */
  ghost function Owner<T>(c: Ctx<T>): Node?<T> {
    match c
    case Top => null
    case LeftOf(_, n, _) => n
    case RightOf(_, _, n) => n
  }

  /** The pointers around the hole form `c`, with `x` in the hole. */
  ghost predicate Hangs<T>(m: Heap<T>, c: Ctx<T>, x: Node?<T>) {
    match c
    case Top => true
    case LeftOf(up, n, r) =>
      && n in m && m[n].left == x && Shape(m, r, m[n].right, n)
      && m[n].parent == Owner(up) && Hangs(m, up, n)
    case RightOf(up, l, n) =>
      && n in m && m[n].right == x && Shape(m, l, m[n].left, n)
      && m[n].parent == Owner(up) && Hangs(m, up, n)
  }

  ghost function Plug<T>(c: Ctx<T>, t: Tree<T>): Tree<T>
    decreases c
  {
    match c
    case Top => t
    case LeftOf(up, n, r) => Plug(up, Fork(t, n, r))
    case RightOf(up, l, n) => Plug(up, Fork(l, n, t))
  }

  /** What comes before the hole, in order. */
  ghost function Before<T>(c: Ctx<T>): seq<Node<T>> {
    match c
    case Top => []
    case LeftOf(up, _, _) => Before(up)
    case RightOf(up, l, n) => Before(up) + (Inorder(l) + [n])
  }

  /** What comes after it. */
  ghost function After<T>(c: Ctx<T>): seq<Node<T>> {
    match c
    case Top => []
    case LeftOf(up, n, r) => [n] + Inorder(r) + After(up)
    case RightOf(up, _, _) => After(up)
  }

  lemma {:induction false} PlugInorder<T>(c: Ctx<T>, t: Tree<T>)
    ensures Inorder(Plug(c, t)) == Before(c) + Inorder(t) + After(c)
    decreases c
  {
    match c
    case Top =>
    case LeftOf(up, n, r) =>
      PlugInorder(up, Fork(t, n, r));
      Regroup(Before(up), Inorder(t), [n], Inorder(r), After(up));
    case RightOf(up, l, n) =>
      PlugInorder(up, Fork(l, n, t));
      Regroup(Before(up), Inorder(l), [n], Inorder(t), After(up));
  }

  lemma Regroup<X>(a: seq<X>, b: seq<X>, c: seq<X>, d: seq<X>, e: seq<X>)
    ensures a + (b + c + d) + e == a + b + (c + d + e)
    ensures a + (b + c + d) + e == a + (b + c) + d + e
  {
  }

  lemma {:induction false} PlugNodes<T>(c: Ctx<T>, t: Tree<T>)
    ensures Nodes(Plug(c, t)) == CtxNodes(c) + Nodes(t)
    decreases c
  {
    match c
    case Top =>
    case LeftOf(up, n, r) => PlugNodes(up, Fork(t, n, r));
    case RightOf(up, l, n) => PlugNodes(up, Fork(l, n, t));
  }

  lemma {:induction false} PlugDistinct<T>(c: Ctx<T>, t: Tree<T>)
    requires CtxDistinct(c) && Distinct(t) && CtxNodes(c) !! Nodes(t)
    ensures Distinct(Plug(c, t))
    decreases c
  {
    match c
    case Top =>
    case LeftOf(up, n, r) => PlugDistinct(up, Fork(t, n, r));
    case RightOf(up, l, n) => PlugDistinct(up, Fork(l, n, t));
  }

  /** The topmost node of a context, or what hangs in it if there is none. */
  ghost function Summit<T>(c: Ctx<T>, x: Node?<T>): Node?<T>
    decreases c
  {
    match c
    case Top => x
    case LeftOf(up, n, _) => Summit(up, n)
    case RightOf(up, _, n) => Summit(up, n)
  }

  /** The whole tree, seen from its root. */
  lemma {:induction false} PlugShape<T>(m: Heap<T>, c: Ctx<T>, t: Tree<T>, x: Node?<T>)
    requires Hangs(m, c, x) && Shape(m, t, x, Owner(c))
    ensures Shape(m, Plug(c, t), Summit(c, x), null)
    decreases c
  {
    match c
    case Top =>
    case LeftOf(up, n, r) => PlugShape(m, up, Fork(t, n, r), n);
    case RightOf(up, l, n) => PlugShape(m, up, Fork(l, n, t), n);
  }

  ghost predicate SameElements<T>(s: seq<Node<T>>, e: set<Node<T>>) {
    (forall n <- s :: n in e) && (forall n <- e :: n in s)
  }

  lemma {:induction false} InorderNodes<T>(t: Tree<T>)
    ensures SameElements(Inorder(t), Nodes(t))
  {
    match t
    case Leaf =>
    case Fork(l, n, r) =>
      InorderNodes(l);
      InorderNodes(r);
  }

  ghost predicate NoDup<X>(s: seq<X>) {
    forall i, j | 0 <= i < j < |s| :: s[i] != s[j]
  }

  lemma NoDupJoin<X>(a: seq<X>, n: X, b: seq<X>)
    requires NoDup(a) && NoDup(b) && n !in a && n !in b && forall x <- a :: x !in b
    ensures NoDup(a + [n] + b)
  {
    var s := a + [n] + b;
    forall i, j | 0 <= i < j < |s|
      ensures s[i] != s[j]
    {
      assert i < |a| ==> s[i] == a[i] && a[i] in a;
      assert j < |a| ==> s[j] == a[j];
      assert i > |a| ==> s[i] == b[i - |a| - 1];
      assert j > |a| ==> s[j] == b[j - |a| - 1] && b[j - |a| - 1] in b;
    }
  }

  lemma {:induction false} InorderDistinct<T>(t: Tree<T>)
    requires Distinct(t)
    ensures NoDup(Inorder(t))
  {
    match t
    case Leaf =>
    case Fork(l, n, r) =>
      InorderDistinct(l);
      InorderDistinct(r);
      InorderNodes(l);
      InorderNodes(r);
      NoDupJoin(Inorder(l), n, Inorder(r));
  }

  /** The two heaps have the same tree pointers for the nodes in `s`. */
  ghost predicate Agree<T>(m: Heap<T>, m': Heap<T>, s: set<Node<T>>) {
    forall n <- s ::
        n in m && n in m' && m'[n].left == m[n].left && m'[n].right == m[n].right && m'[n].parent == m[n].parent
  }

  lemma {:induction false} ShapeFrame<T>(m: Heap<T>, m': Heap<T>, t: Tree<T>, p: Node?<T>, parent: Node?<T>,
                                         s: set<Node<T>>)
    requires Shape(m, t, p, parent) && Nodes(t) <= s && Agree(m, m', s)
    ensures Shape(m', t, p, parent)
    decreases t
  {
    match t
    case Leaf =>
    case Fork(l, n, r) =>
      assert n in s;
      ShapeFrame(m, m', l, m[n].left, n, s);
      ShapeFrame(m, m', r, m[n].right, n, s);
  }

  lemma {:induction false} HangsFrame<T>(m: Heap<T>, m': Heap<T>, c: Ctx<T>, x: Node?<T>, s: set<Node<T>>)
    requires Hangs(m, c, x) && CtxNodes(c) <= s && Agree(m, m', s)
    ensures Hangs(m', c, x)
    decreases c
  {
    match c
    case Top =>
    case LeftOf(up, n, r) =>
      assert n in s;
      ShapeFrame(m, m', r, m[n].right, n, s);
      HangsFrame(m, m', up, n, s);
    case RightOf(up, l, n) =>
      assert n in s;
      ShapeFrame(m, m', l, m[n].left, n, s);
      HangsFrame(m, m', up, n, s);
  }
}
