/** The steps of splay_bottom_up: each brings the node one or two levels up and leaves the
    in-order sequence alone. */
module SplayBottomUp {
  import opened SplayShape
  import opened SplaySteps

  /** The pointers form a tree in which `x`, with subtrees `a` and `b`, hangs in the context `c`. */
  ghost predicate Focus<T>(m: Heap<T>, c: Ctx<T>, a: Tree<T>, x: Node<T>, b: Tree<T>) {
    && x in m && m[x].parent == Owner(c)
    && Shape(m, a, m[x].left, x) && Shape(m, b, m[x].right, x) && Hangs(m, c, x)
    && CtxDistinct(c) && Distinct(Fork(a, x, b)) && CtxNodes(c) !! Nodes(Fork(a, x, b))
  }

  /** All nodes, in order. */
  ghost function Sequence<T>(c: Ctx<T>, a: Tree<T>, x: Node<T>, b: Tree<T>): seq<Node<T>> {
    Before(c) + (Inorder(a) + [x] + Inorder(b)) + After(c)
  }

  ghost function AllNodes<T>(c: Ctx<T>, a: Tree<T>, x: Node<T>, b: Tree<T>): set<Node<T>> {
    CtxNodes(c) + (Nodes(a) + {x} + Nodes(b))
  }

  /** Hang `x` where `g` was. */
  ghost function Rehang<T>(m: Heap<T>, gg: Node?<T>, g: Node<T>, x: Node<T>): Heap<T>
    requires x in m && (gg == null || gg in m)
  {
    var m1 := SetParent(m, x, gg);
    if gg == null then m1
    else if g == m1[gg].left then SetLeft(m1, gg, x)
    else SetRight(m1, gg, x)
  }

  lemma RehangHangs<T>(m: Heap<T>, up: Ctx<T>, g: Node<T>, x: Node<T>)
    requires Hangs(m, up, g) && CtxDistinct(up) && g !in CtxNodes(up) && x !in CtxNodes(up) && x in m
    ensures Owner(up) == null || Owner(up) in m
    ensures var m' := Rehang(m, Owner(up), g, x);
            && Hangs(m', up, x) && SameOutside(m, m', {x} + CtxNodes(up))
            && m'[x].left == m[x].left && m'[x].right == m[x].right && m'[x].parent == Owner(up)
  {
    HangsKeys(m, up, g);
    var gg := Owner(up);
    if gg != null {
      var m' := Rehang(m, gg, g, x);
      match up
      case LeftOf(u, n, r) =>
        ShapeFrame(m, m', r, m[n].right, n, Nodes(r));
        HangsFrame(m, m', u, n, CtxNodes(u));
      case RightOf(u, l, n) =>
        ShapeKeys(m, l, m[n].left, n);
        ShapeFrame(m, m', l, m[n].left, n, Nodes(l));
        HangsFrame(m, m', u, n, CtxNodes(u));
    }
  }

  /** Once the subtrees of `x` are in place, hanging `x` in the outer context completes the step. */
  lemma Settle<T>(m0: Heap<T>, m: Heap<T>, up: Ctx<T>, a: Tree<T>, x: Node<T>, b: Tree<T>, g: Node<T>)
    requires Hangs(m0, up, g) && SameOutside(m0, m, Nodes(Fork(a, x, b)))
    requires CtxDistinct(up) && Distinct(Fork(a, x, b)) && CtxNodes(up) !! Nodes(Fork(a, x, b))
    requires x in m && g !in CtxNodes(up)
    requires Shape(m, a, m[x].left, x) && Shape(m, b, m[x].right, x)
    ensures Owner(up) == null || Owner(up) in m
    ensures Focus(Rehang(m, Owner(up), g, x), up, a, x, b)
    ensures SameOutside(m0, Rehang(m, Owner(up), g, x), CtxNodes(up) + Nodes(Fork(a, x, b)))
  {
    hide Shape, Hangs, Rehang, CtxDistinct;
    HangsKeys(m0, up, g);
    HangsFrame(m0, m, up, g, CtxNodes(up));
    RehangHangs(m, up, g, x);
    var m' := Rehang(m, Owner(up), g, x);
    ShapeKeys(m, a, m[x].left, x);
    ShapeKeys(m, b, m[x].right, x);
    ShapeFrame(m, m', a, m[x].left, x, Nodes(a));
    ShapeFrame(m, m', b, m[x].right, x, Nodes(b));
  }

  ghost predicate Apart<T>(s: set<Node<T>>, u: set<Node<T>>, x: Node<T>, p: Node<T>, g: Node<T>) {
    s !! u && x !in s && p !in s && g !in s
  }

  /** The subtrees and the three nodes of a double step share nothing. */
  ghost predicate Separate<T>(u: set<Node<T>>, a: Tree<T>, b: Tree<T>, c: Tree<T>, d: Tree<T>, x: Node<T>, p: Node<T>,
                              g: Node<T>) {
    && Distinct(a) && Distinct(b) && Distinct(c) && Distinct(d)
    && Apart(Nodes(a), u, x, p, g) && Apart(Nodes(b), u, x, p, g) && Apart(Nodes(c), u, x, p, g)
       && Apart(Nodes(d), u, x, p, g)
    && Nodes(a) !! Nodes(b) && Nodes(a) !! Nodes(c) && Nodes(a) !! Nodes(d)
    && Nodes(b) !! Nodes(c) && Nodes(b) !! Nodes(d) && Nodes(c) !! Nodes(d)
    && x !in u && p !in u && g !in u && x != p && p != g && x != g
  }

  lemma ForkParts<T>(m: Heap<T>, l: Tree<T>, n: Node<T>, r: Tree<T>, q: Node?<T>, parent: Node?<T>)
    requires Shape(m, Fork(l, n, r), q, parent)
    ensures q == n && n in m && m[n].parent == parent && Shape(m, l, m[n].left, n) && Shape(m, r, m[n].right, n)
  {
  }

  lemma ForkDistinct<T>(l: Tree<T>, n: Node<T>, r: Tree<T>)
    requires Distinct(l) && Distinct(r) && n !in Nodes(l) && n !in Nodes(r) && Nodes(l) !! Nodes(r)
    ensures Distinct(Fork(l, n, r)) && Nodes(Fork(l, n, r)) == Nodes(l) + {n} + Nodes(r)
  {
  }

  lemma ZigZigLeft<T>(m: Heap<T>, u: set<Node<T>>, a: Tree<T>, x: Node<T>, b: Tree<T>, p: Node<T>, c: Tree<T>,
                      g: Node<T>, d: Tree<T>)
    requires Separate(u, a, b, c, d, x, p, g) && g in m
    requires Shape(m, Fork(Fork(a, x, b), p, c), p, g) && Shape(m, d, m[g].right, g)
    ensures p in m && x in m && p != g && x != p && Free(m, p, g, m[p].right)
    ensures Distinct(Fork(a, x, Fork(b, p, Fork(c, g, d)))) && Nodes(Fork(a, x, Fork(b, p, Fork(c, g, d)))) !! u
    ensures var m1 := LiftLeft(m, p, g);
            && Free(m1, x, p, m1[x].right)
            && var m2 := LiftLeft(m1, x, p);
               && SameOutside(m, m2, Nodes(Fork(a, x, Fork(b, p, Fork(c, g, d)))))
               && Shape(m2, a, m2[x].left, x) && Shape(m2, Fork(b, p, Fork(c, g, d)), m2[x].right, x)
  {
    hide LiftLeft, Shape, Distinct, Nodes;
    ForkDistinct(a, x, b);
    ForkDistinct(Fork(a, x, b), p, c);
    ForkDistinct(Fork(Fork(a, x, b), p, c), g, d);
    ForkDistinct(c, g, d);
    ForkDistinct(Fork(a, x, b), p, Fork(c, g, d));
    ForkDistinct(b, p, Fork(c, g, d));
    ForkDistinct(a, x, Fork(b, p, Fork(c, g, d)));
    ForkParts(m, Fork(a, x, b), p, c, p, g);
    ForkParts(m, a, x, b, m[p].left, p);
    LiftLeftShape(m, p, g, Fork(a, x, b), c, d);
    var m1 := LiftLeft(m, p, g);
    ForkParts(m1, a, x, b, m1[p].left, p);
    LiftLeftShape(m1, x, p, a, b, Fork(c, g, d));
  }

  lemma ZigZigRight<T>(m: Heap<T>, u: set<Node<T>>, a: Tree<T>, x: Node<T>, b: Tree<T>, p: Node<T>, c: Tree<T>,
                       g: Node<T>, d: Tree<T>)
    requires Separate(u, a, b, c, d, x, p, g) && g in m
    requires Shape(m, Fork(c, p, Fork(a, x, b)), p, g) && Shape(m, d, m[g].left, g)
    ensures p in m && x in m && p != g && x != p && Free(m, p, g, m[p].left)
    ensures Distinct(Fork(Fork(Fork(d, g, c), p, a), x, b)) && Nodes(Fork(Fork(Fork(d, g, c), p, a), x, b)) !! u
    ensures var m1 := LiftRight(m, p, g);
            && Free(m1, x, p, m1[x].left)
            && var m2 := LiftRight(m1, x, p);
               && SameOutside(m, m2, Nodes(Fork(Fork(Fork(d, g, c), p, a), x, b)))
               && Shape(m2, Fork(Fork(d, g, c), p, a), m2[x].left, x) && Shape(m2, b, m2[x].right, x)
  {
    hide LiftRight, Shape, Distinct, Nodes;
    ForkDistinct(a, x, b);
    ForkDistinct(c, p, Fork(a, x, b));
    ForkDistinct(d, g, Fork(c, p, Fork(a, x, b)));
    ForkDistinct(d, g, c);
    ForkDistinct(Fork(d, g, c), p, Fork(a, x, b));
    ForkDistinct(Fork(d, g, c), p, a);
    ForkDistinct(Fork(Fork(d, g, c), p, a), x, b);
    ForkParts(m, c, p, Fork(a, x, b), p, g);
    ForkParts(m, a, x, b, m[p].right, p);
    LiftRightShape(m, p, g, Fork(a, x, b), c, d);
    var m1 := LiftRight(m, p, g);
    ForkParts(m1, a, x, b, m1[p].right, p);
    LiftRightShape(m1, x, p, b, a, Fork(d, g, c));
  }

  lemma ZigZagLeftRight<T>(m: Heap<T>, u: set<Node<T>>, a: Tree<T>, x: Node<T>, b: Tree<T>, p: Node<T>, c: Tree<T>,
                           g: Node<T>, d: Tree<T>)
    requires Separate(u, a, b, c, d, x, p, g) && g in m
    requires Shape(m, Fork(c, p, Fork(a, x, b)), p, g) && Shape(m, d, m[g].right, g)
    ensures p in m && x in m && x != p && x != g && Free(m, x, p, m[x].left)
    ensures Distinct(Fork(Fork(c, p, a), x, Fork(b, g, d))) && Nodes(Fork(Fork(c, p, a), x, Fork(b, g, d))) !! u
    ensures var m1 := LiftRight(m, x, p);
            && Free(m1, x, g, m1[x].right)
            && var m2 := LiftLeft(m1, x, g);
               && SameOutside(m, m2, Nodes(Fork(Fork(c, p, a), x, Fork(b, g, d))))
               && Shape(m2, Fork(c, p, a), m2[x].left, x) && Shape(m2, Fork(b, g, d), m2[x].right, x)
  {
    hide LiftLeft, LiftRight, Shape, Distinct, Nodes;
    ForkDistinct(a, x, b);
    ForkDistinct(c, p, Fork(a, x, b));
    ForkDistinct(c, p, a);
    ForkDistinct(Fork(c, p, a), x, b);
    ForkDistinct(Fork(Fork(c, p, a), x, b), g, d);
    ForkDistinct(b, g, d);
    ForkDistinct(Fork(c, p, a), x, Fork(b, g, d));
    ForkParts(m, c, p, Fork(a, x, b), p, g);
    ForkParts(m, a, x, b, m[p].right, p);
    ShapeKeys(m, d, m[g].right, g);
    LiftRightShape(m, x, p, b, a, c);
    var m1 := LiftRight(m, x, p);
    ShapeFrame(m, m1, d, m[g].right, g, Nodes(d));
    LiftLeftShape(m1, x, g, Fork(c, p, a), b, d);
  }

  lemma ZigZagRightLeft<T>(m: Heap<T>, u: set<Node<T>>, a: Tree<T>, x: Node<T>, b: Tree<T>, p: Node<T>, c: Tree<T>,
                           g: Node<T>, d: Tree<T>)
    requires Separate(u, a, b, c, d, x, p, g) && g in m
    requires Shape(m, Fork(Fork(a, x, b), p, c), p, g) && Shape(m, d, m[g].left, g)
    ensures p in m && x in m && x != p && x != g && Free(m, x, p, m[x].right)
    ensures Distinct(Fork(Fork(d, g, a), x, Fork(b, p, c))) && Nodes(Fork(Fork(d, g, a), x, Fork(b, p, c))) !! u
    ensures var m1 := LiftLeft(m, x, p);
            && Free(m1, x, g, m1[x].left)
            && var m2 := LiftRight(m1, x, g);
               && SameOutside(m, m2, Nodes(Fork(Fork(d, g, a), x, Fork(b, p, c))))
               && Shape(m2, Fork(d, g, a), m2[x].left, x) && Shape(m2, Fork(b, p, c), m2[x].right, x)
  {
    hide LiftLeft, LiftRight, Shape, Distinct, Nodes;
    ForkDistinct(a, x, b);
    ForkDistinct(Fork(a, x, b), p, c);
    ForkDistinct(b, p, c);
    ForkDistinct(a, x, Fork(b, p, c));
    ForkDistinct(d, g, Fork(a, x, Fork(b, p, c)));
    ForkDistinct(d, g, a);
    ForkDistinct(Fork(d, g, a), x, Fork(b, p, c));
    ForkParts(m, Fork(a, x, b), p, c, p, g);
    ForkParts(m, a, x, b, m[p].left, p);
    ShapeKeys(m, d, m[g].left, g);
    LiftLeftShape(m, x, p, a, b, c);
    var m1 := LiftLeft(m, x, p);
    ShapeFrame(m, m1, d, m[g].left, g, Nodes(d));
    LiftRightShape(m1, x, g, Fork(b, p, c), a, d);
  }

  /** Which child a node is can be read off the parent's left pointer. */
  lemma SideOf<T>(m: Heap<T>, c: Ctx<T>, x: Node<T>)
    requires Hangs(m, c, x) && CtxDistinct(c) && x !in CtxNodes(c) && !c.Top?
    ensures Owner(c) != null && Owner(c) in m && m[Owner(c)].parent == Owner(c.up)
    ensures x == m[Owner(c)].left <==> c.LeftOf?
    ensures Hangs(m, c.up, c.node) && CtxDistinct(c.up) && c.node !in CtxNodes(c.up)
    ensures CtxNodes(c) == CtxNodes(c.up) + {c.node} + Nodes(Sibling(c))
    ensures Shape(m, Sibling(c), if c.LeftOf? then m[c.node].right else m[c.node].left, c.node)
    ensures x == m[Owner(c)].right <==> c.RightOf?
    ensures Distinct(Sibling(c)) && c.node !in Nodes(Sibling(c)) && CtxNodes(c.up) !! Nodes(Sibling(c))
  {
    match c
    case LeftOf(_, n, r) => ShapeKeys(m, r, m[n].right, n);
    case RightOf(_, l, n) => ShapeKeys(m, l, m[n].left, n);
  }

  /** The subtree on the other side of the hole. */
  ghost function Sibling<T>(c: Ctx<T>): Tree<T>
    requires !c.Top?
  {
    if c.LeftOf? then c.right else c.left
  }

  /** How many levels above the hole there are. */
  ghost function Depth<T>(c: Ctx<T>): nat {
    match c
    case Top => 0
    case LeftOf(up, _, _) => 1 + Depth(up)
    case RightOf(up, _, _) => 1 + Depth(up)
  }

  lemma CtxParts<T>(c: Ctx<T>)
    requires CtxDistinct(c) && !c.Top?
    ensures CtxDistinct(c.up) && Distinct(Sibling(c))
    ensures CtxNodes(c) == CtxNodes(c.up) + {c.node} + Nodes(Sibling(c))
    ensures c.node !in CtxNodes(c.up) && c.node !in Nodes(Sibling(c)) && CtxNodes(c.up) !! Nodes(Sibling(c))
  {
  }

  lemma LevelsSeparate<T>(c: Ctx<T>, a: Tree<T>, x: Node<T>, b: Tree<T>)
    requires CtxDistinct(c) && Distinct(Fork(a, x, b)) && CtxNodes(c) !! Nodes(Fork(a, x, b)) && !c.Top? && !c.up.Top?
    ensures var p, g, s, d, up := c.node, c.up.node, Sibling(c), Sibling(c.up), c.up.up;
            && Separate(CtxNodes(up), a, b, s, d, x, p, g)
            && CtxNodes(c) == CtxNodes(up) + {p, g} + Nodes(s) + Nodes(d)
  {
    assert Distinct(a) && Distinct(b) && x !in Nodes(a) && x !in Nodes(b) && Nodes(a) !! Nodes(b);
    assert Nodes(Fork(a, x, b)) == Nodes(a) + {x} + Nodes(b);
    hide CtxDistinct, CtxNodes, Distinct, Nodes, Sibling;
    CtxParts(c);
    CtxParts(c.up);
  }

  /** Both levels above `x`, taken apart. */
  lemma TwoLevels<T>(m: Heap<T>, c: Ctx<T>, a: Tree<T>, x: Node<T>, b: Tree<T>)
    requires Focus(m, c, a, x, b) && !c.Top? && !c.up.Top?
    ensures var p, g, s, d, up := c.node, c.up.node, Sibling(c), Sibling(c.up), c.up.up;
            && p in m && g in m && m[x].parent == p && m[p].parent == g && m[g].parent == Owner(up)
            && (x == m[p].left <==> c.LeftOf?) && (p == m[g].left <==> c.up.LeftOf?)
            && (x == m[p].right <==> c.RightOf?) && (p == m[g].right <==> c.up.RightOf?)
            && Shape(m, if c.LeftOf? then Fork(Fork(a, x, b), p, s) else Fork(s, p, Fork(a, x, b)), p, g)
            && Shape(m, d, if c.up.LeftOf? then m[g].right else m[g].left, g)
            && Hangs(m, up, g) && CtxDistinct(up) && g !in CtxNodes(up)
  {
    hide Shape, Hangs, CtxDistinct, CtxNodes, Distinct;
    SideOf(m, c, x);
    SideOf(m, c.up, c.node);
    var p, g, s := c.node, c.up.node, Sibling(c);
    ForkShape(m, a, x, b, p);
    if c.LeftOf? {
      ForkShape(m, Fork(a, x, b), p, s, g);
    } else {
      ForkShape(m, s, p, Fork(a, x, b), g);
    }
  }

  /** Everything a double step needs to know. */
  lemma StepReady<T>(m: Heap<T>, c: Ctx<T>, a: Tree<T>, x: Node<T>, b: Tree<T>)
    requires Focus(m, c, a, x, b) && !c.Top? && !c.up.Top?
    ensures var p, g, s, d, up := c.node, c.up.node, Sibling(c), Sibling(c.up), c.up.up;
            && Separate(CtxNodes(up), a, b, s, d, x, p, g)
            && x in m && p in m && g in m && m[g].parent == Owner(up) && (Owner(up) == null || Owner(up) in m)
            && Shape(m, if c.LeftOf? then Fork(Fork(a, x, b), p, s) else Fork(s, p, Fork(a, x, b)), p, g)
            && Shape(m, d, if c.up.LeftOf? then m[g].right else m[g].left, g)
            && Hangs(m, up, g) && CtxDistinct(up) && g !in CtxNodes(up)
  {
    LevelsSeparate(c, a, x, b);
    TwoLevels(m, c, a, x, b);
    hide Shape, Separate, CtxDistinct, CtxNodes;
    OwnerKnown(m, c.up.up, c.up.node);
  }

  lemma OwnerKnown<T>(m: Heap<T>, c: Ctx<T>, x: Node?<T>)
    requires Hangs(m, c, x)
    ensures Owner(c) == null || Owner(c) in m
  {
  }

  /** Everything a single step needs to know. */
  lemma ZigReady<T>(m: Heap<T>, c: Ctx<T>, a: Tree<T>, x: Node<T>, b: Tree<T>)
    requires Focus(m, c, a, x, b) && !c.Top? && c.up.Top?
    ensures var p, s := c.node, Sibling(c);
            && x in m && p in m && x != p && (x == m[p].left <==> c.LeftOf?)
            && Shape(m, a, m[x].left, x) && Shape(m, b, m[x].right, x)
            && Shape(m, s, if c.LeftOf? then m[p].right else m[p].left, p)
            && Distinct(Fork(Fork(a, x, b), p, s)) && Distinct(Fork(s, p, Fork(a, x, b)))
            && Distinct(Fork(a, x, Fork(b, p, s))) && Distinct(Fork(Fork(s, p, a), x, b))
  {
    hide Shape, Hangs, CtxDistinct;
    SideOf(m, c, x);
    var p, s := c.node, Sibling(c);
    assert Distinct(a) && Distinct(b) && Nodes(Fork(a, x, b)) == Nodes(a) + {x} + Nodes(b);
    assert x !in Nodes(a) && x !in Nodes(b) && Nodes(a) !! Nodes(b);
    hide Distinct, Nodes;
    ForkDistinct(a, x, b);
    ForkDistinct(Fork(a, x, b), p, s);
    ForkDistinct(s, p, Fork(a, x, b));
    ForkDistinct(b, p, s);
    ForkDistinct(a, x, Fork(b, p, s));
    ForkDistinct(s, p, a);
    ForkDistinct(Fork(s, p, a), x, b);
  }

  lemma SameOutsideMore<T>(m: Heap<T>, m': Heap<T>, s: set<Node<T>>, r: set<Node<T>>)
    requires SameOutside(m, m', s) && s <= r
    ensures SameOutside(m, m', r)
  {
  }
}
