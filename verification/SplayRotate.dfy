/** splay_bottom_up of src/splay_tree.c, on the nodes themselves. */
module SplayRotate {
  import opened SplayShape
  import opened SplaySteps
  import opened SplayBottomUp

  /** Lift `child`, the left child of `parent`, above it. */
  method RotateRight<T>(child: Node<T>, parent: Node<T>, ghost all: set<Node<T>>)
    requires child in all && parent in all && child != parent && Free(Ptrs(all), child, parent, child.right)
    modifies all`left, all`right, all`parent
    ensures Ptrs(all) == LiftLeft(old(Ptrs(all)), child, parent)
  {
    parent.left := child.right;
    if parent.left != null {
      parent.left.parent := parent;
    }
    child.right := parent;
    parent.parent := child;
  }

  /** Lift `child`, the right child of `parent`, above it. */
  method RotateLeft<T>(child: Node<T>, parent: Node<T>, ghost all: set<Node<T>>)
    requires child in all && parent in all && child != parent && Free(Ptrs(all), child, parent, child.left)
    modifies all`left, all`right, all`parent
    ensures Ptrs(all) == LiftRight(old(Ptrs(all)), child, parent)
  {
    parent.right := child.left;
    if parent.right != null {
      parent.right.parent := parent;
    }
    child.left := parent;
    parent.parent := child;
  }

  /** Hang `node` where `grandparent` was. */
  method Replace<T>(node: Node<T>, grandparent: Node<T>, greatgrandparent: Node?<T>, ghost all: set<Node<T>>)
    requires node in all && (greatgrandparent == null || greatgrandparent in all)
    modifies all`left, all`right, all`parent
    ensures Ptrs(all) == Rehang(old(Ptrs(all)), greatgrandparent, grandparent, node)
  {
    node.parent := greatgrandparent;
    if greatgrandparent != null {
      if grandparent == greatgrandparent.left {
        greatgrandparent.left := node;
      } else {
        greatgrandparent.right := node;
      }
    }
  }

  /** The node has moved up to the context `c'` with the subtrees a' and b'; nothing else has
      changed about the sequence of nodes, and the list pointers are as before. */
  ghost predicate MovedUp<T>(m: Heap<T>, m': Heap<T>, node: Node<T>, c: Ctx<T>, a: Tree<T>, b: Tree<T>, c': Ctx<T>,
                             a': Tree<T>, b': Tree<T>) {
    && Focus(m', c', a', node, b')
    && SameOrder(c, a, node, b, c', a', b')
    && SameOutside(m, m', AllNodes(c, a, node, b))
  }

  lemma CtxOrder<T>(c: Ctx<T>)
    requires !c.Top?
    ensures Before(c) == Before(c.up) + (if c.LeftOf? then [] else Inorder(Sibling(c)) + [c.node])
    ensures After(c) == (if c.LeftOf? then [c.node] + Inorder(Sibling(c)) else []) + After(c.up)
    ensures CtxNodes(c) == CtxNodes(c.up) + {c.node} + Nodes(Sibling(c)) && Depth(c) == Depth(c.up) + 1
  {
  }

  lemma ForkOrder<T>(l: Tree<T>, n: Node<T>, r: Tree<T>)
    ensures Inorder(Fork(l, n, r)) == Inorder(l) + [n] + Inorder(r)
    ensures Nodes(Fork(l, n, r)) == Nodes(l) + {n} + Nodes(r)
  {
  }

  /** The same nodes in the same order. */
  ghost predicate SameOrder<T>(c: Ctx<T>, a: Tree<T>, x: Node<T>, b: Tree<T>, c': Ctx<T>, a': Tree<T>, b': Tree<T>) {
    && Sequence(c', a', x, b') == Sequence(c, a, x, b)
    && AllNodes(c', a', x, b') == AllNodes(c, a, x, b)
    && Depth(c') < Depth(c)
  }

  lemma ZigZigLeftOrder<T>(c: Ctx<T>, a: Tree<T>, x: Node<T>, b: Tree<T>)
    requires !c.Top? && !c.up.Top? && c.LeftOf? && c.up.LeftOf?
    ensures var p, g, s, d := c.node, c.up.node, Sibling(c), Sibling(c.up);
            SameOrder(c, a, x, b, c.up.up, a, Fork(b, p, Fork(s, g, d)))
  {
    hide Before, After, Inorder, CtxNodes, Nodes;
    var p, g, s, d := c.node, c.up.node, Sibling(c), Sibling(c.up);
    CtxOrder(c);
    CtxOrder(c.up);
    ForkOrder(s, g, d);
    ForkOrder(b, p, Fork(s, g, d));
  }

  /** Left zig-zig: the node and its parent are left children. */
  method ZigZigLeft<T>(node: Node<T>, parent: Node<T>, grandparent: Node<T>, greatgrandparent: Node?<T>,
                ghost all: set<Node<T>>, ghost c: Ctx<T>, ghost a: Tree<T>, ghost b: Tree<T>)
    returns (ghost a': Tree<T>, ghost b': Tree<T>)
    requires Focus(Ptrs(all), c, a, node, b) && !c.Top? && !c.up.Top? && c.LeftOf? && c.up.LeftOf?
    requires parent == c.node && grandparent == c.up.node && greatgrandparent == Owner(c.up.up)
    modifies all`left, all`right, all`parent
    ensures MovedUp(old(Ptrs(all)), Ptrs(all), node, c, a, b, c.up.up, a', b')
  {
    hide Shape, Hangs, LiftLeft, LiftRight, Rehang, Focus, CtxNodes, CtxDistinct, Distinct, Nodes, Sequence;
    ghost var m, up, s, d := Ptrs(all), c.up.up, Sibling(c), Sibling(c.up);
    a', b' := a, Fork(b, parent, Fork(s, grandparent, d));
    StepReady(m, c, a, node, b);
    SplayBottomUp.ZigZigLeft(m, CtxNodes(up), a, node, b, parent, s, grandparent, d);
    RotateRight(parent, grandparent, all);
    RotateRight(node, parent, all);
    Settle(m, Ptrs(all), up, a', node, b', grandparent);
    Replace(node, grandparent, greatgrandparent, all);
    ZigZigLeftOrder(c, a, node, b);
    ForkOrder(a', node, b');
  }

  lemma ZigZigRightOrder<T>(c: Ctx<T>, a: Tree<T>, x: Node<T>, b: Tree<T>)
    requires !c.Top? && !c.up.Top? && c.RightOf? && c.up.RightOf?
    ensures var p, g, s, d := c.node, c.up.node, Sibling(c), Sibling(c.up);
            SameOrder(c, a, x, b, c.up.up, Fork(Fork(d, g, s), p, a), b)
  {
    hide Before, After, Inorder, CtxNodes, Nodes;
    var p, g, s, d := c.node, c.up.node, Sibling(c), Sibling(c.up);
    CtxOrder(c);
    CtxOrder(c.up);
    ForkOrder(d, g, s);
    ForkOrder(Fork(d, g, s), p, a);
  }

  /** Right zig-zig: both are right children. */
  method ZigZigRight<T>(node: Node<T>, parent: Node<T>, grandparent: Node<T>, greatgrandparent: Node?<T>,
                ghost all: set<Node<T>>, ghost c: Ctx<T>, ghost a: Tree<T>, ghost b: Tree<T>)
    returns (ghost a': Tree<T>, ghost b': Tree<T>)
    requires Focus(Ptrs(all), c, a, node, b) && !c.Top? && !c.up.Top? && c.RightOf? && c.up.RightOf?
    requires parent == c.node && grandparent == c.up.node && greatgrandparent == Owner(c.up.up)
    modifies all`left, all`right, all`parent
    ensures MovedUp(old(Ptrs(all)), Ptrs(all), node, c, a, b, c.up.up, a', b')
  {
    hide Shape, Hangs, LiftLeft, LiftRight, Rehang, Focus, CtxNodes, CtxDistinct, Distinct, Nodes, Sequence;
    ghost var m, up, s, d := Ptrs(all), c.up.up, Sibling(c), Sibling(c.up);
    a', b' := Fork(Fork(d, grandparent, s), parent, a), b;
    StepReady(m, c, a, node, b);
    SplayBottomUp.ZigZigRight(m, CtxNodes(up), a, node, b, parent, s, grandparent, d);
    RotateLeft(parent, grandparent, all);
    RotateLeft(node, parent, all);
    Settle(m, Ptrs(all), up, a', node, b', grandparent);
    Replace(node, grandparent, greatgrandparent, all);
    ZigZigRightOrder(c, a, node, b);
    ForkOrder(a', node, b');
  }

  lemma ZigZagLeftRightOrder<T>(c: Ctx<T>, a: Tree<T>, x: Node<T>, b: Tree<T>)
    requires !c.Top? && !c.up.Top? && c.RightOf? && c.up.LeftOf?
    ensures var p, g, s, d := c.node, c.up.node, Sibling(c), Sibling(c.up);
            SameOrder(c, a, x, b, c.up.up, Fork(s, p, a), Fork(b, g, d))
  {
    hide Before, After, Inorder, CtxNodes, Nodes;
    var p, g, s, d := c.node, c.up.node, Sibling(c), Sibling(c.up);
    CtxOrder(c);
    CtxOrder(c.up);
    ForkOrder(s, p, a);
    ForkOrder(b, g, d);
  }

  /** Left-right zig-zag: a right child of a left child. */
  method ZigZagLeftRight<T>(node: Node<T>, parent: Node<T>, grandparent: Node<T>, greatgrandparent: Node?<T>,
                ghost all: set<Node<T>>, ghost c: Ctx<T>, ghost a: Tree<T>, ghost b: Tree<T>)
    returns (ghost a': Tree<T>, ghost b': Tree<T>)
    requires Focus(Ptrs(all), c, a, node, b) && !c.Top? && !c.up.Top? && c.RightOf? && c.up.LeftOf?
    requires parent == c.node && grandparent == c.up.node && greatgrandparent == Owner(c.up.up)
    modifies all`left, all`right, all`parent
    ensures MovedUp(old(Ptrs(all)), Ptrs(all), node, c, a, b, c.up.up, a', b')
  {
    hide Shape, Hangs, LiftLeft, LiftRight, Rehang, Focus, CtxNodes, CtxDistinct, Distinct, Nodes, Sequence;
    ghost var m, up, s, d := Ptrs(all), c.up.up, Sibling(c), Sibling(c.up);
    a', b' := Fork(s, parent, a), Fork(b, grandparent, d);
    StepReady(m, c, a, node, b);
    SplayBottomUp.ZigZagLeftRight(m, CtxNodes(up), a, node, b, parent, s, grandparent, d);
    RotateLeft(node, parent, all);
    RotateRight(node, grandparent, all);
    Settle(m, Ptrs(all), up, a', node, b', grandparent);
    Replace(node, grandparent, greatgrandparent, all);
    ZigZagLeftRightOrder(c, a, node, b);
    ForkOrder(a', node, b');
  }

  lemma ZigZagRightLeftOrder<T>(c: Ctx<T>, a: Tree<T>, x: Node<T>, b: Tree<T>)
    requires !c.Top? && !c.up.Top? && c.LeftOf? && c.up.RightOf?
    ensures var p, g, s, d := c.node, c.up.node, Sibling(c), Sibling(c.up);
            SameOrder(c, a, x, b, c.up.up, Fork(d, g, a), Fork(b, p, s))
  {
    hide Before, After, Inorder, CtxNodes, Nodes;
    var p, g, s, d := c.node, c.up.node, Sibling(c), Sibling(c.up);
    CtxOrder(c);
    CtxOrder(c.up);
    ForkOrder(d, g, a);
    ForkOrder(b, p, s);
  }

  /** Right-left zig-zag: a left child of a right child. */
  method ZigZagRightLeft<T>(node: Node<T>, parent: Node<T>, grandparent: Node<T>, greatgrandparent: Node?<T>,
                ghost all: set<Node<T>>, ghost c: Ctx<T>, ghost a: Tree<T>, ghost b: Tree<T>)
    returns (ghost a': Tree<T>, ghost b': Tree<T>)
    requires Focus(Ptrs(all), c, a, node, b) && !c.Top? && !c.up.Top? && c.LeftOf? && c.up.RightOf?
    requires parent == c.node && grandparent == c.up.node && greatgrandparent == Owner(c.up.up)
    modifies all`left, all`right, all`parent
    ensures MovedUp(old(Ptrs(all)), Ptrs(all), node, c, a, b, c.up.up, a', b')
  {
    hide Shape, Hangs, LiftLeft, LiftRight, Rehang, Focus, CtxNodes, CtxDistinct, Distinct, Nodes, Sequence;
    ghost var m, up, s, d := Ptrs(all), c.up.up, Sibling(c), Sibling(c.up);
    a', b' := Fork(d, grandparent, a), Fork(b, parent, s);
    StepReady(m, c, a, node, b);
    SplayBottomUp.ZigZagRightLeft(m, CtxNodes(up), a, node, b, parent, s, grandparent, d);
    RotateRight(node, parent, all);
    RotateLeft(node, grandparent, all);
    Settle(m, Ptrs(all), up, a', node, b', grandparent);
    Replace(node, grandparent, greatgrandparent, all);
    ZigZagRightLeftOrder(c, a, node, b);
    ForkOrder(a', node, b');
  }

  lemma ZigOrder<T>(c: Ctx<T>, a: Tree<T>, x: Node<T>, b: Tree<T>)
    requires !c.Top? && c.up.Top?
    ensures var p, s := c.node, Sibling(c);
            if c.LeftOf? then SameOrder(c, a, x, b, Top, a, Fork(b, p, s))
               else SameOrder(c, a, x, b, Top, Fork(s, p, a), b)
  {
    hide Before, After, Inorder, CtxNodes, Nodes;
    var p, s := c.node, Sibling(c);
    TopOrder<T>();
    CtxOrder(c);
    ForkOrder(b, p, s);
    ForkOrder(s, p, a);
  }

  lemma TopOrder<T>()
    ensures Before<T>(Top) == [] && After<T>(Top) == [] && CtxNodes<T>(Top) == {} && Depth<T>(Top) == 0
  {
  }

  /** The last level: the parent is the root. */
  method Zig<T>(node: Node<T>, parent: Node<T>, ghost all: set<Node<T>>, ghost c: Ctx<T>, ghost a: Tree<T>,
                ghost b: Tree<T>)
    returns (ghost a': Tree<T>, ghost b': Tree<T>)
    requires Focus(Ptrs(all), c, a, node, b) && !c.Top? && c.up.Top? && parent == c.node
    modifies all`left, all`right, all`parent
    ensures MovedUp(old(Ptrs(all)), Ptrs(all), node, c, a, b, Top, a', b')
  {
    hide Shape, LiftLeft, LiftRight, Rehang, Focus, Distinct, Nodes, Sequence;
    ghost var m, s := Ptrs(all), Sibling(c);
    ZigReady(m, c, a, node, b);
    if node == parent.left {
      a', b' := a, Fork(b, parent, s);
      LiftLeftShape(m, node, parent, a, b, s);
      RotateRight(node, parent, all);
      ForkOrder(b, parent, s);
    } else {
      a', b' := Fork(s, parent, a), b;
      LiftRightShape(m, node, parent, b, a, s);
      RotateLeft(node, parent, all);
      ForkOrder(s, parent, a);
    }
    ForkOrder(a', node, b');
    SameOutsideMore(m, Ptrs(all), {node, parent} + Nodes(if c.LeftOf? then b else a), Nodes(Fork(a', node, b')));
    Settle(m, Ptrs(all), Top, a', node, b', parent);
    Replace(node, parent, null, all);
    ZigOrder(c, a, node, b);
  }

  /** One pass of the loop of splay_bottom_up. */
  method StepUp<T>(node: Node<T>, ghost all: set<Node<T>>, ghost c: Ctx<T>, ghost a: Tree<T>, ghost b: Tree<T>)
    returns (ghost c': Ctx<T>, ghost a': Tree<T>, ghost b': Tree<T>)
    requires Focus(Ptrs(all), c, a, node, b) && node.parent != null
    modifies all`left, all`right, all`parent
    ensures MovedUp(old(Ptrs(all)), Ptrs(all), node, c, a, b, c', a', b')
  {
    hide Focus, SameOrder, SameOutside;
    FocusParent(Ptrs(all), c, a, node, b);
    var parent := node.parent;
    StepKnown(Ptrs(all), c, a, node, b);
    var grandparent := parent.parent;
    if grandparent == null {
      c' := Top;
      a', b' := Zig(node, parent, all, c, a, b);
    } else {
      var greatgrandparent := grandparent.parent;
      c' := c.up.up;
      if node == parent.left && parent == grandparent.left {
        a', b' := ZigZigLeft(node, parent, grandparent, greatgrandparent, all, c, a, b);
      } else if node == parent.right && parent == grandparent.right {
        a', b' := ZigZigRight(node, parent, grandparent, greatgrandparent, all, c, a, b);
      } else if node == parent.right && parent == grandparent.left {
        a', b' := ZigZagLeftRight(node, parent, grandparent, greatgrandparent, all, c, a, b);
      } else {
        a', b' := ZigZagRightLeft(node, parent, grandparent, greatgrandparent, all, c, a, b);
      }
    }
  }

  /** The pointers above the node tell which step applies. */
  lemma StepKnown<T>(m: Heap<T>, c: Ctx<T>, a: Tree<T>, x: Node<T>, b: Tree<T>)
    requires Focus(m, c, a, x, b) && m[x].parent != null
    ensures !c.Top? && m[x].parent == c.node && c.node in m
    ensures c.up.Top? <==> m[c.node].parent == null
    ensures !c.up.Top? ==>
              var p, g := c.node, c.up.node;
              && m[p].parent == g && g in m && m[g].parent == Owner(c.up.up)
              && (x == m[p].left <==> c.LeftOf?) && (p == m[g].left <==> c.up.LeftOf?)
              && (x == m[p].right <==> c.RightOf?) && (p == m[g].right <==> c.up.RightOf?)
  {
    hide Shape, CtxDistinct, CtxNodes, Distinct;
    assert m[c.node].parent == Owner(c.up);
    if !c.up.Top? {
      TwoLevels(m, c, a, x, b);
    }
  }

  /** splay_bottom_up: bring the node to the root. */
  method SplayUp<T>(node: Node<T>, ghost all: set<Node<T>>, ghost c0: Ctx<T>, ghost a0: Tree<T>, ghost b0: Tree<T>)
    returns (ghost a: Tree<T>, ghost b: Tree<T>)
    requires Focus(Ptrs(all), c0, a0, node, b0)
    modifies all`left, all`right, all`parent
    ensures Focus(Ptrs(all), Top, a, node, b)
    ensures Sequence(Top, a, node, b) == Sequence(c0, a0, node, b0)
    ensures AllNodes(Top, a, node, b) == AllNodes(c0, a0, node, b0)
    ensures SameOutside(old(Ptrs(all)), Ptrs(all), AllNodes(c0, a0, node, b0))
  {
    hide Focus, Sequence, AllNodes;
    ghost var c := c0;
    a, b := a0, b0;
    FocusParent(Ptrs(all), c, a, node, b);
    while node.parent != null
      invariant Focus(Ptrs(all), c, a, node, b)
      invariant Sequence(c, a, node, b) == Sequence(c0, a0, node, b0)
      invariant AllNodes(c, a, node, b) == AllNodes(c0, a0, node, b0)
      invariant SameOutside(old(Ptrs(all)), Ptrs(all), AllNodes(c0, a0, node, b0))
      invariant node.parent == Owner(c)
      decreases Depth(c)
    {
      c, a, b := StepUp(node, all, c, a, b);
      FocusParent(Ptrs(all), c, a, node, b);
    }
  }

  lemma FocusParent<T>(m: Heap<T>, c: Ctx<T>, a: Tree<T>, x: Node<T>, b: Tree<T>)
    requires Focus(m, c, a, x, b)
    ensures x in m && m[x].parent == Owner(c)
  {
  }
}
