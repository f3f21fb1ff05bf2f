/** The steps of splay_top_down: the tree is cut into a left tree, the rest, and a right tree.

The left tree hangs from a dummy node and only grows at its rightmost end, the right tree
only at its leftmost end, so each is a context whose hole is where it grows.
*/
module SplayTopDown {
  import opened SplayShape
  import opened SplaySteps
  import opened SplayBottomUp

  /** The context is the dummy node, or extends such a context at its rightmost end. */
  ghost predicate LeftSpine<T>(c: Ctx<T>, dummy: Node<T>) {
    c.RightOf? && if c.up.Top? then c.left == Leaf && c.node == dummy else LeftSpine(c.up, dummy)
  }

  ghost predicate RightSpine<T>(c: Ctx<T>, dummy: Node<T>) {
    c.LeftOf? && if c.up.Top? then c.right == Leaf && c.node == dummy else RightSpine(c.up, dummy)
  }

  /** The nodes of the left tree, in order, without the dummy. */
  ghost function LeftSeq<T>(c: Ctx<T>): seq<Node<T>> {
    match c
    case RightOf(up, l, n) => if up.Top? then [] else LeftSeq(up) + (Inorder(l) + [n])
    case _ => []
  }

  ghost function RightSeq<T>(c: Ctx<T>): seq<Node<T>> {
    match c
    case LeftOf(up, n, r) => if up.Top? then [] else [n] + Inorder(r) + RightSeq(up)
    case _ => []
  }

  /** The left tree with `t` at its rightmost end. */
  ghost function LeftTree<T>(c: Ctx<T>, t: Tree<T>): Tree<T>
    decreases c
  {
    match c
    case RightOf(up, l, n) => if up.Top? then t else LeftTree(up, Fork(l, n, t))
    case _ => t
  }

  ghost function RightTree<T>(c: Ctx<T>, t: Tree<T>): Tree<T>
    decreases c
  {
    match c
    case LeftOf(up, n, r) => if up.Top? then t else RightTree(up, Fork(t, n, r))
    case _ => t
  }

  lemma {:induction false} LeftTreePlug<T>(c: Ctx<T>, t: Tree<T>, dummy: Node<T>)
    requires LeftSpine(c, dummy)
    ensures Plug(c, t) == Fork(Leaf, dummy, LeftTree(c, t))
    ensures Inorder(LeftTree(c, t)) == LeftSeq(c) + Inorder(t)
    ensures Nodes(LeftTree(c, t)) + {dummy} == CtxNodes(c) + Nodes(t)
    decreases c
  {
    if !c.up.Top? {
      LeftTreePlug(c.up, Fork(c.left, c.node, t), dummy);
      assert LeftSeq(c.up) + (Inorder(c.left) + [c.node] + Inorder(t)) ==
             LeftSeq(c.up) + (Inorder(c.left) + [c.node]) + Inorder(t);
    } else {
      assert Plug(c.up, Fork(Leaf, dummy, t)) == Fork(Leaf, dummy, t);
      assert [] + Inorder(t) == Inorder(t);
      assert CtxNodes(c.up) == {} && Nodes<T>(Leaf) == {};
    }
  }

  lemma {:induction false} RightTreePlug<T>(c: Ctx<T>, t: Tree<T>, dummy: Node<T>)
    requires RightSpine(c, dummy)
    ensures Plug(c, t) == Fork(RightTree(c, t), dummy, Leaf)
    ensures Inorder(RightTree(c, t)) == Inorder(t) + RightSeq(c)
    ensures Nodes(RightTree(c, t)) + {dummy} == CtxNodes(c) + Nodes(t)
    decreases c
  {
    if !c.up.Top? {
      RightTreePlug(c.up, Fork(t, c.node, c.right), dummy);
      assert Inorder(t) + [c.node] + Inorder(c.right) + RightSeq(c.up) ==
             Inorder(t) + ([c.node] + Inorder(c.right) + RightSeq(c.up));
    } else {
      assert Plug(c.up, Fork(t, dummy, Leaf)) == Fork(t, dummy, Leaf);
      assert Inorder(t) + [] == Inorder(t);
      assert CtxNodes(c.up) == {} && Nodes<T>(Leaf) == {};
    }
  }

  /** The pointers form three parts: the left tree, `x` with its subtrees, and the right tree. */
  ghost predicate Split<T>(m: Heap<T>, cl: Ctx<T>, a: Tree<T>, x: Node<T>, b: Tree<T>, cr: Ctx<T>) {
    && x in m && Shape(m, a, m[x].left, x) && Shape(m, b, m[x].right, x)
    && Hangs(m, cl, null) && Hangs(m, cr, null)
    && Disjoint(cl, a, x, b, cr)
  }

  ghost predicate Disjoint<T>(cl: Ctx<T>, a: Tree<T>, x: Node<T>, b: Tree<T>, cr: Ctx<T>) {
    && CtxDistinct(cl) && CtxDistinct(cr) && Distinct(a) && Distinct(b)
    && x !in Nodes(a) && x !in Nodes(b) && x !in CtxNodes(cl) && x !in CtxNodes(cr)
    && Nodes(a) !! Nodes(b) && CtxNodes(cl) !! CtxNodes(cr)
    && CtxNodes(cl) !! Nodes(a) && CtxNodes(cl) !! Nodes(b) && CtxNodes(cr) !! Nodes(a) && CtxNodes(cr) !! Nodes(b)
  }

  /** All nodes but the dummies, in order. */
  ghost function CutSeq<T>(cl: Ctx<T>, a: Tree<T>, x: Node<T>, b: Tree<T>, cr: Ctx<T>): seq<Node<T>> {
    LeftSeq(cl) + (Inorder(a) + [x] + Inorder(b)) + RightSeq(cr)
  }

  lemma LeafShape<T>(m: Heap<T>, t: Tree<T>, was: Node?<T>, parent: Node?<T>)
    requires Shape(m, t, null, was)
    ensures Shape(m, t, null, parent)
  {
  }

  /** Only what hangs in the context differs. */
  lemma Refill<T>(m: Heap<T>, m': Heap<T>, c: Ctx<T>, x: Node?<T>, x': Node?<T>)
    requires Hangs(m, c, x) && !c.Top? && CtxDistinct(c)
    requires Agree(m, m', CtxNodes(c) - {c.node}) && c.node in m && c.node in m'
             && m'[c.node].parent == m[c.node].parent
    requires if c.LeftOf? then m'[c.node].left == x' && m'[c.node].right == m[c.node].right
             else m'[c.node].right == x' && m'[c.node].left == m[c.node].left
    ensures Hangs(m', c, x')
  {
    match c
    case LeftOf(up, n, r) =>
      ShapeFrame(m, m', r, m[n].right, n, Nodes(r));
      HangsFrame(m, m', up, n, CtxNodes(up));
    case RightOf(up, l, n) =>
      ShapeFrame(m, m', l, m[n].left, n, Nodes(l));
      HangsFrame(m, m', up, n, CtxNodes(up));
  }

  /** Append `n`, with what is on its right, at the leftmost end of the right tree. */
  ghost function HangRight<T>(m: Heap<T>, bottom: Node<T>, n: Node<T>): Heap<T>
    requires bottom in m && n in m
  {
    SetLeft(SetParent(SetLeft(m, bottom, n), n, bottom), n, null)
  }

  /** Append `n`, with what is on its left, at the rightmost end of the left tree. */
  ghost function HangLeft<T>(m: Heap<T>, bottom: Node<T>, n: Node<T>): Heap<T>
    requires bottom in m && n in m
  {
    SetRight(SetParent(SetRight(m, bottom, n), n, bottom), n, null)
  }

  lemma HangRightHangs<T>(m: Heap<T>, c: Ctx<T>, n: Node<T>, r: Tree<T>)
    requires Hangs(m, c, null) && c.LeftOf? && CtxDistinct(c)
    requires n in m && n !in CtxNodes(c) && n !in Nodes(r) && CtxNodes(c) !! Nodes(r) && Shape(m, r, m[n].right, n)
    ensures c.node in m
    ensures var m' := HangRight(m, c.node, n);
            Hangs(m', LeftOf(c, n, r), null) && SameOutside(m, m', {c.node, n})
  {
    var m' := HangRight(m, c.node, n);
    HangsKeys(m, c, null);
    CtxSelf(c);
    ShapeKeys(m, r, m[n].right, n);
    hide Shape, Nodes, CtxNodes, CtxDistinct;
    ShapeFrame(m, m', r, m[n].right, n, Nodes(r));
    Refill(m, m', c, null, n);
  }

  lemma HangLeftHangs<T>(m: Heap<T>, c: Ctx<T>, n: Node<T>, l: Tree<T>)
    requires Hangs(m, c, null) && c.RightOf? && CtxDistinct(c)
    requires n in m && n !in CtxNodes(c) && n !in Nodes(l) && CtxNodes(c) !! Nodes(l) && Shape(m, l, m[n].left, n)
    ensures c.node in m
    ensures var m' := HangLeft(m, c.node, n);
            Hangs(m', RightOf(c, l, n), null) && SameOutside(m, m', {c.node, n})
  {
    var m' := HangLeft(m, c.node, n);
    HangsKeys(m, c, null);
    CtxSelf(c);
    ShapeKeys(m, l, m[n].left, n);
    hide Shape, Nodes, CtxNodes, CtxDistinct;
    ShapeFrame(m, m', l, m[n].left, n, Nodes(l));
    Refill(m, m', c, null, n);
  }

  lemma SubDistinct<T>(l: Tree<T>, n: Node<T>, r: Tree<T>)
    requires Distinct(Fork(l, n, r))
    ensures Distinct(l) && Distinct(r) && n !in Nodes(l) && n !in Nodes(r) && Nodes(l) !! Nodes(r)
    ensures Nodes(Fork(l, n, r)) == Nodes(l) + {n} + Nodes(r)
  {
  }

  /** Lifting the left child of `x` first: the left-left case. */
  lemma LiftLeftSplit<T>(m: Heap<T>, cl: Ctx<T>, l: Tree<T>, child: Node<T>, r: Tree<T>, x: Node<T>, b: Tree<T>,
                         cr: Ctx<T>)
    requires Split(m, cl, Fork(l, child, r), x, b, cr)
    ensures child in m && child != x && Free(m, child, x, m[child].right)
    ensures Split(LiftLeft(m, child, x), cl, l, child, Fork(r, x, b), cr)
    ensures SameOutside(m, LiftLeft(m, child, x), {x, child} + Nodes(r))
  {
    hide Shape, Hangs, Distinct, Nodes, CtxDistinct, LiftLeft, CtxNodes;
    SubDistinct(l, child, r);
    ForkParts(m, l, child, r, m[x].left, x);
    ForkDistinct(Fork(l, child, r), x, b);
    ForkDistinct(r, x, b);
    LiftLeftShape(m, child, x, l, r, b);
    var m' := LiftLeft(m, child, x);
    HangsKeys(m, cl, null);
    HangsKeys(m, cr, null);
    HangsFrame(m, m', cl, null, CtxNodes(cl));
    HangsFrame(m, m', cr, null, CtxNodes(cr));
    ForkParts(m', r, x, b, x, child);
  }

  /** Lifting the right child of `x` first: the right-right case. */
  lemma LiftRightSplit<T>(m: Heap<T>, cl: Ctx<T>, a: Tree<T>, x: Node<T>, l: Tree<T>, child: Node<T>, r: Tree<T>,
                          cr: Ctx<T>)
    requires Split(m, cl, a, x, Fork(l, child, r), cr)
    ensures child in m && child != x && Free(m, child, x, m[child].left)
    ensures Split(LiftRight(m, child, x), cl, Fork(a, x, l), child, r, cr)
    ensures SameOutside(m, LiftRight(m, child, x), {x, child} + Nodes(l))
  {
    hide Shape, Hangs, Distinct, Nodes, CtxDistinct, LiftRight, CtxNodes;
    SubDistinct(l, child, r);
    ForkParts(m, l, child, r, m[x].right, x);
    ForkDistinct(a, x, Fork(l, child, r));
    ForkDistinct(a, x, l);
    LiftRightShape(m, child, x, r, l, a);
    var m' := LiftRight(m, child, x);
    HangsKeys(m, cl, null);
    HangsKeys(m, cr, null);
    HangsFrame(m, m', cl, null, CtxNodes(cl));
    HangsFrame(m, m', cr, null, CtxNodes(cr));
    ForkParts(m', a, x, l, x, child);
  }

  /** Moving `x` and its right subtree to the right tree; its left child is the new root. */
  ghost function CutRight<T>(m: Heap<T>, bottom: Node<T>, x: Node<T>, child: Node<T>): Heap<T>
    requires bottom in m && x in m && child in m
  {
    SetParent(HangRight(m, bottom, x), child, null)
  }

  ghost function CutLeft<T>(m: Heap<T>, bottom: Node<T>, x: Node<T>, child: Node<T>): Heap<T>
    requires bottom in m && x in m && child in m
  {
    SetParent(HangLeft(m, bottom, x), child, null)
  }

  lemma CutRightDisjoint<T>(cl: Ctx<T>, l: Tree<T>, child: Node<T>, r: Tree<T>, x: Node<T>, b: Tree<T>, cr: Ctx<T>)
    requires Disjoint(cl, Fork(l, child, r), x, b, cr) && cr.LeftOf?
    ensures Disjoint(cl, l, child, r, LeftOf(cr, x, b))
    ensures Distinct(Fork(l, child, r))
    ensures x !in CtxNodes(cr) && x !in Nodes(b) && CtxNodes(cr) !! Nodes(b)
    ensures {x, child, cr.node} !! CtxNodes(cl) && {x, child, cr.node} !! Nodes(l) && {x, child, cr.node} !! Nodes(r)
    ensures child !in CtxNodes(LeftOf(cr, x, b))
  {
    hide Distinct, Nodes, CtxDistinct, CtxNodes;
    SubDistinct(l, child, r);
    CtxSelf(cr);
    LeftOfNodes(cr, x, b);
  }

  lemma CutRightSplit<T>(m: Heap<T>, cl: Ctx<T>, l: Tree<T>, child: Node<T>, r: Tree<T>, x: Node<T>, b: Tree<T>,
                         cr: Ctx<T>)
    requires Split(m, cl, Fork(l, child, r), x, b, cr) && cr.LeftOf?
    ensures child in m && cr.node in m
    ensures Split(CutRight(m, cr.node, x, child), cl, l, child, r, LeftOf(cr, x, b))
    ensures CutRight(m, cr.node, x, child)[child].parent == null
    ensures SameOutside(m, CutRight(m, cr.node, x, child), {x, child, cr.node})
  {
    CutRightDisjoint(cl, l, child, r, x, b, cr);
    CtxPart(cl, Fork(l, child, r), x, b, cr);
    hide Shape, Hangs, Distinct, Nodes, CtxDistinct, HangRight, CtxNodes, Disjoint;
    ForkParts(m, l, child, r, m[x].left, x);
    HangRightHangs(m, cr, x, b);
    var m1 := HangRight(m, cr.node, x);
    var m' := CutRight(m, cr.node, x, child);
    ShapeKeys(m, l, m[child].left, child);
    ShapeKeys(m, r, m[child].right, child);
    HangsKeys(m, cl, null);
    HangsKeys(m1, LeftOf(cr, x, b), null);
    ShapeFrame(m, m', l, m[child].left, child, Nodes(l));
    ShapeFrame(m, m', r, m[child].right, child, Nodes(r));
    HangsFrame(m, m', cl, null, CtxNodes(cl));
    HangsFrame(m1, m', LeftOf(cr, x, b), null, CtxNodes(LeftOf(cr, x, b)));
  }

  lemma CutLeftDisjoint<T>(cl: Ctx<T>, a: Tree<T>, x: Node<T>, l: Tree<T>, child: Node<T>, r: Tree<T>, cr: Ctx<T>)
    requires Disjoint(cl, a, x, Fork(l, child, r), cr) && cl.RightOf?
    ensures Disjoint(RightOf(cl, a, x), l, child, r, cr)
    ensures Distinct(Fork(l, child, r))
    ensures x !in CtxNodes(cl) && x !in Nodes(a) && CtxNodes(cl) !! Nodes(a)
    ensures {x, child, cl.node} !! CtxNodes(cr) && {x, child, cl.node} !! Nodes(l) && {x, child, cl.node} !! Nodes(r)
    ensures child !in CtxNodes(RightOf(cl, a, x))
  {
    hide Distinct, Nodes, CtxDistinct, CtxNodes;
    SubDistinct(l, child, r);
    CtxSelf(cl);
    RightOfNodes(cl, a, x);
  }

  lemma CutLeftSplit<T>(m: Heap<T>, cl: Ctx<T>, a: Tree<T>, x: Node<T>, l: Tree<T>, child: Node<T>, r: Tree<T>,
                        cr: Ctx<T>)
    requires Split(m, cl, a, x, Fork(l, child, r), cr) && cl.RightOf?
    ensures child in m && cl.node in m
    ensures Split(CutLeft(m, cl.node, x, child), RightOf(cl, a, x), l, child, r, cr)
    ensures CutLeft(m, cl.node, x, child)[child].parent == null
    ensures SameOutside(m, CutLeft(m, cl.node, x, child), {x, child, cl.node})
  {
    CutLeftDisjoint(cl, a, x, l, child, r, cr);
    CtxPart(cl, a, x, Fork(l, child, r), cr);
    hide Shape, Hangs, Distinct, Nodes, CtxDistinct, HangLeft, CtxNodes, Disjoint;
    ForkParts(m, l, child, r, m[x].right, x);
    HangLeftHangs(m, cl, x, a);
    var m1 := HangLeft(m, cl.node, x);
    var m' := CutLeft(m, cl.node, x, child);
    ShapeKeys(m, l, m[child].left, child);
    ShapeKeys(m, r, m[child].right, child);
    HangsKeys(m, cr, null);
    HangsKeys(m1, RightOf(cl, a, x), null);
    ShapeFrame(m, m', l, m[child].left, child, Nodes(l));
    ShapeFrame(m, m', r, m[child].right, child, Nodes(r));
    HangsFrame(m, m', cr, null, CtxNodes(cr));
    HangsFrame(m1, m', RightOf(cl, a, x), null, CtxNodes(RightOf(cl, a, x)));
  }

  lemma CtxPart<T>(cl: Ctx<T>, a: Tree<T>, x: Node<T>, b: Tree<T>, cr: Ctx<T>)
    requires Disjoint(cl, a, x, b, cr)
    ensures CtxDistinct(cl) && CtxDistinct(cr)
  {
  }

  lemma CtxSelf<T>(c: Ctx<T>)
    requires !c.Top?
    ensures c.node in CtxNodes(c)
  {
  }

  lemma LeftOfNodes<T>(c: Ctx<T>, x: Node<T>, b: Tree<T>)
    ensures CtxNodes(LeftOf(c, x, b)) == CtxNodes(c) + {x} + Nodes(b)
    ensures CtxDistinct(LeftOf(c, x, b)) <==>
              CtxDistinct(c) && Distinct(b) && x !in CtxNodes(c) && x !in Nodes(b) && CtxNodes(c) !! Nodes(b)
  {
  }

  lemma RightOfNodes<T>(c: Ctx<T>, a: Tree<T>, x: Node<T>)
    ensures CtxNodes(RightOf(c, a, x)) == CtxNodes(c) + {x} + Nodes(a)
    ensures CtxDistinct(RightOf(c, a, x)) <==>
              CtxDistinct(c) && Distinct(a) && x !in CtxNodes(c) && x !in Nodes(a) && CtxNodes(c) !! Nodes(a)
  {
  }

  /** Attach what is left of `x` to the rightmost end of the left tree. */
  ghost function JoinLeft<T>(m: Heap<T>, bottom: Node<T>, p: Node?<T>): Heap<T>
    requires bottom in m && (p == null || p in m)
  {
    if p == null then m else SetParent(SetRight(m, bottom, p), p, bottom)
  }

  lemma JoinLeftPtrs<T>(m: Heap<T>, bottom: Node<T>, p: Node?<T>)
    requires bottom in m && (p == null || (p in m && p != bottom))
    ensures var m' := JoinLeft(m, bottom, p);
            && SameOutside(m, m', {bottom} + Opt(p)) && (p == null ==> m' == m)
            && m'[bottom].left == m[bottom].left && m'[bottom].parent == m[bottom].parent
            && (p != null ==> m'[bottom].right == p)
            && (p != null ==> m'[p].left == m[p].left && m'[p].right == m[p].right && m'[p].parent == bottom)
  {
  }

  lemma JoinLeftShape<T>(m: Heap<T>, c: Ctx<T>, t: Tree<T>, p: Node?<T>, was: Node?<T>)
    requires c.RightOf? && Hangs(m, c, null) && CtxDistinct(c) && Distinct(t) && CtxNodes(c) !! Nodes(t)
             && Shape(m, t, p, was)
    ensures c.node in m && (p == null || p in m)
    ensures var m' := JoinLeft(m, c.node, p);
            && Hangs(m', c, p) && Shape(m', t, p, c.node) && SameOutside(m, m', {c.node} + Nodes(t))
  {
    hide Shape, Hangs, Distinct, CtxDistinct, Nodes, CtxNodes, JoinLeft;
    HangsKeys(m, c, null);
    ShapeKeys(m, t, p, was);
    CtxSelf(c);
    JoinLeftPtrs(m, c.node, p);
    if p != null {
      var m' := JoinLeft(m, c.node, p);
      Reparented(m, m', t, p, was, c.node);
      Refill(m, m', c, null, p);
    } else {
      LeafShape(m, t, was, c.node);
    }
  }

  /** Give `x` the whole left tree, if there is one. */
  ghost function MergeLeft<T>(m: Heap<T>, dummy: Node<T>, bottom: Node<T>, x: Node<T>): Heap<T>
    requires dummy in m && bottom in m && x in m && (m[x].left == null || m[x].left in m)
  {
    if m[dummy].right == null then m
    else
      var m1 := JoinLeft(m, bottom, m[x].left);
      var p := m1[dummy].right;
      if p == null || p !in m1 then m1 else SetParent(SetLeft(m1, x, p), p, x)
  }

  /** An empty left tree shows in the dummy's pointer. */
  lemma LeftEmpty<T>(m: Heap<T>, c: Ctx<T>, t: Tree<T>, p: Node?<T>, dummy: Node<T>)
    requires LeftSpine(c, dummy) && Hangs(m, c, p) && Shape(m, t, p, c.node)
    ensures dummy in m && Shape(m, LeftTree(c, t), m[dummy].right, dummy)
    ensures c.up.Top? ==> LeftTree(c, t) == t && m[dummy].right == p
    ensures !c.up.Top? ==> LeftTree(c, t).Fork? && m[dummy].right != null
  {
    PlugShape(m, c, t, p);
    LeftTreePlug(c, t, dummy);
    ForkParts(m, Leaf, dummy, LeftTree(c, t), Summit(c, p), null);
    ShapeKeys(m, LeftTree(c, t), m[dummy].right, dummy);
    LeftTreeFork(c, t, dummy);
  }

  lemma {:induction false} LeftTreeFork<T>(c: Ctx<T>, t: Tree<T>, dummy: Node<T>)
    requires LeftSpine(c, dummy)
    ensures c.up.Top? ==> LeftTree(c, t) == t && c.node == dummy
    ensures !c.up.Top? || t.Fork? ==> LeftTree(c, t).Fork?
    decreases c
  {
    if !c.up.Top? {
      LeftTreeFork(c.up, Fork(c.left, c.node, t), dummy);
    }
  }

  lemma LeftTreeDistinct<T>(c: Ctx<T>, t: Tree<T>, dummy: Node<T>)
    requires LeftSpine(c, dummy) && CtxDistinct(c) && Distinct(t) && CtxNodes(c) !! Nodes(t)
    ensures Distinct(LeftTree(c, t)) && dummy !in Nodes(LeftTree(c, t)) && dummy in CtxNodes(c)
    ensures Nodes(LeftTree(c, t)) == CtxNodes(c) + Nodes(t) - {dummy}
  {
    PlugDistinct(c, t);
    PlugNodes(c, t);
    LeftTreePlug(c, t, dummy);
    SubDistinct(Leaf, dummy, LeftTree(c, t));
    assert dummy in Nodes(Plug(c, t));
    DummyInLeft(c, dummy);
  }

  lemma {:induction false} DummyInLeft<T>(c: Ctx<T>, dummy: Node<T>)
    requires LeftSpine(c, dummy)
    ensures dummy in CtxNodes(c)
    decreases c
  {
    if !c.up.Top? {
      DummyInLeft(c.up, dummy);
    }
  }

  /** Attach what is right of `x` to the leftmost end of the right tree. */
  ghost function JoinRight<T>(m: Heap<T>, bottom: Node<T>, p: Node?<T>): Heap<T>
    requires bottom in m && (p == null || p in m)
  {
    if p == null then m else SetParent(SetLeft(m, bottom, p), p, bottom)
  }

  lemma JoinRightPtrs<T>(m: Heap<T>, bottom: Node<T>, p: Node?<T>)
    requires bottom in m && (p == null || (p in m && p != bottom))
    ensures var m' := JoinRight(m, bottom, p);
            && SameOutside(m, m', {bottom} + Opt(p)) && (p == null ==> m' == m)
            && m'[bottom].right == m[bottom].right && m'[bottom].parent == m[bottom].parent
            && (p != null ==> m'[bottom].left == p)
            && (p != null ==> m'[p].left == m[p].left && m'[p].right == m[p].right && m'[p].parent == bottom)
  {
  }

  lemma JoinRightShape<T>(m: Heap<T>, c: Ctx<T>, t: Tree<T>, p: Node?<T>, was: Node?<T>)
    requires c.LeftOf? && Hangs(m, c, null) && CtxDistinct(c) && Distinct(t) && CtxNodes(c) !! Nodes(t)
             && Shape(m, t, p, was)
    ensures c.node in m && (p == null || p in m)
    ensures var m' := JoinRight(m, c.node, p);
            && Hangs(m', c, p) && Shape(m', t, p, c.node) && SameOutside(m, m', {c.node} + Nodes(t))
  {
    hide Shape, Hangs, Distinct, CtxDistinct, Nodes, CtxNodes, JoinRight;
    HangsKeys(m, c, null);
    ShapeKeys(m, t, p, was);
    CtxSelf(c);
    JoinRightPtrs(m, c.node, p);
    if p != null {
      var m' := JoinRight(m, c.node, p);
      Reparented(m, m', t, p, was, c.node);
      Refill(m, m', c, null, p);
    } else {
      LeafShape(m, t, was, c.node);
    }
  }

  /** Give `x` the whole right tree, if there is one. */
  ghost function MergeRight<T>(m: Heap<T>, dummy: Node<T>, bottom: Node<T>, x: Node<T>): Heap<T>
    requires dummy in m && bottom in m && x in m && (m[x].right == null || m[x].right in m)
  {
    if m[dummy].left == null then m
    else
      var m1 := JoinRight(m, bottom, m[x].right);
      var p := m1[dummy].left;
      if p == null || p !in m1 then m1 else SetParent(SetRight(m1, x, p), p, x)
  }

  /** An empty right tree shows in the dummy's pointer. */
  lemma RightEmpty<T>(m: Heap<T>, c: Ctx<T>, t: Tree<T>, p: Node?<T>, dummy: Node<T>)
    requires RightSpine(c, dummy) && Hangs(m, c, p) && Shape(m, t, p, c.node)
    ensures dummy in m && Shape(m, RightTree(c, t), m[dummy].left, dummy)
    ensures c.up.Top? ==> RightTree(c, t) == t && m[dummy].left == p
    ensures !c.up.Top? ==> RightTree(c, t).Fork? && m[dummy].left != null
  {
    PlugShape(m, c, t, p);
    RightTreePlug(c, t, dummy);
    ForkParts(m, RightTree(c, t), dummy, Leaf, Summit(c, p), null);
    ShapeKeys(m, RightTree(c, t), m[dummy].left, dummy);
    RightTreeFork(c, t, dummy);
  }

  lemma {:induction false} RightTreeFork<T>(c: Ctx<T>, t: Tree<T>, dummy: Node<T>)
    requires RightSpine(c, dummy)
    ensures c.up.Top? ==> RightTree(c, t) == t && c.node == dummy
    ensures !c.up.Top? || t.Fork? ==> RightTree(c, t).Fork?
    decreases c
  {
    if !c.up.Top? {
      RightTreeFork(c.up, Fork(t, c.node, c.right), dummy);
    }
  }

  lemma RightTreeDistinct<T>(c: Ctx<T>, t: Tree<T>, dummy: Node<T>)
    requires RightSpine(c, dummy) && CtxDistinct(c) && Distinct(t) && CtxNodes(c) !! Nodes(t)
    ensures Distinct(RightTree(c, t)) && dummy !in Nodes(RightTree(c, t)) && dummy in CtxNodes(c)
    ensures Nodes(RightTree(c, t)) == CtxNodes(c) + Nodes(t) - {dummy}
  {
    PlugDistinct(c, t);
    PlugNodes(c, t);
    RightTreePlug(c, t, dummy);
    SubDistinct(RightTree(c, t), dummy, Leaf);
    assert dummy in Nodes(Plug(c, t));
    DummyInRight(c, dummy);
  }

  lemma {:induction false} DummyInRight<T>(c: Ctx<T>, dummy: Node<T>)
    requires RightSpine(c, dummy)
    ensures dummy in CtxNodes(c)
    decreases c
  {
    if !c.up.Top? {
      DummyInRight(c.up, dummy);
    }
  }

  lemma MergeLeftPtrs<T>(m: Heap<T>, m1: Heap<T>, dummy: Node<T>, bottom: Node<T>, x: Node<T>, p: Node<T>)
    requires dummy in m && bottom in m && x in m && (m[x].left == null || m[x].left in m)
    requires m[dummy].right != null && m1 == JoinLeft(m, bottom, m[x].left) && m1.Keys == m.Keys
    requires p == m1[dummy].right && p in m1 && p != x
    ensures var m' := MergeLeft(m, dummy, bottom, x);
            && SameOutside(m1, m', {x, p})
            && m'[x].left == p && m'[x].right == m1[x].right && m'[x].parent == m1[x].parent
            && m'[p].left == m1[p].left && m'[p].right == m1[p].right && m'[p].parent == x
  {
  }

  lemma MergeLeftShape<T>(m: Heap<T>, c: Ctx<T>, a: Tree<T>, x: Node<T>, dummy: Node<T>)
    requires LeftSpine(c, dummy) && Hangs(m, c, null) && CtxDistinct(c) && Distinct(a) && CtxNodes(c) !! Nodes(a)
    requires x in m && x !in CtxNodes(c) && x !in Nodes(a) && Shape(m, a, m[x].left, x)
    ensures dummy in m && c.node in m && (m[x].left == null || m[x].left in m)
    ensures var m' := MergeLeft(m, dummy, c.node, x);
            && Shape(m', LeftTree(c, a), m'[x].left, x)
            && m'[x].right == m[x].right && m'[x].parent == m[x].parent
            && SameOutside(m, m', {x} + CtxNodes(c) + Nodes(a))
  {
    hide Shape, Distinct, CtxDistinct, Nodes, CtxNodes, JoinLeft, MergeLeft, LeftTree;
    JoinLeftShape(m, c, a, m[x].left, x);
    var m1 := JoinLeft(m, c.node, m[x].left);
    LeftEmpty(m1, c, a, m[x].left, dummy);
    LeafHere(m, c.node);
    LeftEmpty(m, c, Leaf, null, dummy);
    LeftTreeDistinct(c, a, dummy);
    ShapeKeys(m, a, m[x].left, x);
    HangsKeys(m, c, null);
    CtxSelf(c);
    var m' := MergeLeft(m, dummy, c.node, x);
    if c.up.Top? {
      MergeLeftNothing(m, dummy, c.node, x);
    } else {
      var p := m1[dummy].right;
      ShapeKeys(m1, LeftTree(c, a), p, dummy);
      MergeLeftPtrs(m, m1, dummy, c.node, x, p);
      Reparented(m1, m', LeftTree(c, a), p, dummy, x);
    }
  }

  lemma MergeLeftNothing<T>(m: Heap<T>, dummy: Node<T>, bottom: Node<T>, x: Node<T>)
    requires dummy in m && bottom in m && x in m && (m[x].left == null || m[x].left in m) && m[dummy].right == null
    ensures MergeLeft(m, dummy, bottom, x) == m
  {
  }

  lemma MergeRightPtrs<T>(m: Heap<T>, m1: Heap<T>, dummy: Node<T>, bottom: Node<T>, x: Node<T>, p: Node<T>)
    requires dummy in m && bottom in m && x in m && (m[x].right == null || m[x].right in m)
    requires m[dummy].left != null && m1 == JoinRight(m, bottom, m[x].right) && m1.Keys == m.Keys
    requires p == m1[dummy].left && p in m1 && p != x
    ensures var m' := MergeRight(m, dummy, bottom, x);
            && SameOutside(m1, m', {x, p})
            && m'[x].right == p && m'[x].left == m1[x].left && m'[x].parent == m1[x].parent
            && m'[p].left == m1[p].left && m'[p].right == m1[p].right && m'[p].parent == x
  {
  }

  lemma MergeRightShape<T>(m: Heap<T>, c: Ctx<T>, a: Tree<T>, x: Node<T>, dummy: Node<T>)
    requires RightSpine(c, dummy) && Hangs(m, c, null) && CtxDistinct(c) && Distinct(a) && CtxNodes(c) !! Nodes(a)
    requires x in m && x !in CtxNodes(c) && x !in Nodes(a) && Shape(m, a, m[x].right, x)
    ensures dummy in m && c.node in m && (m[x].right == null || m[x].right in m)
    ensures var m' := MergeRight(m, dummy, c.node, x);
            && Shape(m', RightTree(c, a), m'[x].right, x)
            && m'[x].left == m[x].left && m'[x].parent == m[x].parent
            && SameOutside(m, m', {x} + CtxNodes(c) + Nodes(a))
  {
    hide Shape, Distinct, CtxDistinct, Nodes, CtxNodes, JoinRight, MergeRight, RightTree;
    JoinRightShape(m, c, a, m[x].right, x);
    var m1 := JoinRight(m, c.node, m[x].right);
    RightEmpty(m1, c, a, m[x].right, dummy);
    LeafHere(m, c.node);
    RightEmpty(m, c, Leaf, null, dummy);
    RightTreeDistinct(c, a, dummy);
    ShapeKeys(m, a, m[x].right, x);
    HangsKeys(m, c, null);
    CtxSelf(c);
    var m' := MergeRight(m, dummy, c.node, x);
    if c.up.Top? {
      MergeRightNothing(m, dummy, c.node, x);
    } else {
      var p := m1[dummy].left;
      ShapeKeys(m1, RightTree(c, a), p, dummy);
      MergeRightPtrs(m, m1, dummy, c.node, x, p);
      Reparented(m1, m', RightTree(c, a), p, dummy, x);
    }
  }

  lemma MergeRightNothing<T>(m: Heap<T>, dummy: Node<T>, bottom: Node<T>, x: Node<T>)
    requires dummy in m && bottom in m && x in m && (m[x].right == null || m[x].right in m) && m[dummy].left == null
    ensures MergeRight(m, dummy, bottom, x) == m
  {
  }

  lemma LeafHere<T>(m: Heap<T>, parent: Node?<T>)
    ensures Shape(m, Leaf, null, parent)
  {
  }
}
