/** splay_top_down of src/splay_tree.c, on the nodes themselves. */
module SplaySearch {
  import opened SplayShape
  import opened SplaySteps
  import opened SplayBottomUp
  import opened SplayRotate
  import opened SplayTopDown

  method AdoptLeft<T>(root: Node<T>, child: Node<T>, ghost all: set<Node<T>>)
    requires root in all && child in all
    modifies all`left, all`parent
    ensures Ptrs(all) == SetParent(SetLeft(old(Ptrs(all)), root, child), child, root)
  {
    root.left := child;
    child.parent := root;
  }

  method AdoptRight<T>(root: Node<T>, child: Node<T>, ghost all: set<Node<T>>)
    requires root in all && child in all
    modifies all`right, all`parent
    ensures Ptrs(all) == SetParent(SetRight(old(Ptrs(all)), root, child), child, root)
  {
    root.right := child;
    child.parent := root;
  }

  method DropLeft<T>(root: Node<T>, child: Node<T>, ghost all: set<Node<T>>)
    requires root in all && child in all
    modifies all`left, all`parent
    ensures Ptrs(all) == SetParent(SetLeft(old(Ptrs(all)), root, null), child, null)
  {
    root.left := null;
    child.parent := null;
  }

  method DropRight<T>(root: Node<T>, child: Node<T>, ghost all: set<Node<T>>)
    requires root in all && child in all
    modifies all`right, all`parent
    ensures Ptrs(all) == SetParent(SetRight(old(Ptrs(all)), root, null), child, null)
  {
    root.right := null;
    child.parent := null;
  }

  /** Move `root` and its right subtree to the right tree; `child` is the new root. */
  method CutToRight<T>(root: Node<T>, child: Node<T>, bottom: Node<T>, ghost all: set<Node<T>>)
    requires root in all && child in all && bottom in all
    modifies all`left, all`right, all`parent
    ensures Ptrs(all) == CutRight(old(Ptrs(all)), bottom, root, child)
  {
    hide SetLeft, SetParent;
    AdoptLeft(bottom, root, all);
    DropLeft(root, child, all);
  }

  /** Move `root` and its left subtree to the left tree; `child` is the new root. */
  method CutToLeft<T>(root: Node<T>, child: Node<T>, bottom: Node<T>, ghost all: set<Node<T>>)
    requires root in all && child in all && bottom in all
    modifies all`left, all`right, all`parent
    ensures Ptrs(all) == CutLeft(old(Ptrs(all)), bottom, root, child)
  {
    hide SetRight, SetParent;
    AdoptRight(bottom, root, all);
    DropRight(root, child, all);
  }

  method JoinToLeft<T>(root: Node<T>, bottom: Node<T>, ghost all: set<Node<T>>)
    requires root in all && bottom in all && (root.left == null || root.left in all)
    modifies all`right, all`parent
    ensures Ptrs(all) == JoinLeft(old(Ptrs(all)), bottom, old(root.left))
  {
    if root.left != null {
      AdoptRight(bottom, root.left, all);
    }
  }

  /** Give `root` the left tree. */
  method MergeFromLeft<T>(root: Node<T>, dummy: Node<T>, bottom: Node<T>, ghost all: set<Node<T>>)
    requires root in all && dummy in all && bottom in all && (root.left == null || root.left in all)
    requires dummy.right != null ==>
               var p := JoinLeft(Ptrs(all), bottom, root.left)[dummy].right; p != null && p in all
    modifies all`left, all`right, all`parent
    ensures Ptrs(all) == MergeLeft(old(Ptrs(all)), dummy, bottom, root)
  {
    if dummy.right != null {
      hide JoinLeft, SetLeft, SetParent;
      JoinToLeft(root, bottom, all);
      AdoptLeft(root, dummy.right, all);
    }
  }

  method JoinToRight<T>(root: Node<T>, bottom: Node<T>, ghost all: set<Node<T>>)
    requires root in all && bottom in all && (root.right == null || root.right in all)
    modifies all`left, all`parent
    ensures Ptrs(all) == JoinRight(old(Ptrs(all)), bottom, old(root.right))
  {
    if root.right != null {
      AdoptLeft(bottom, root.right, all);
    }
  }

  /** Give `root` the right tree. */
  method MergeFromRight<T>(root: Node<T>, dummy: Node<T>, bottom: Node<T>, ghost all: set<Node<T>>)
    requires root in all && dummy in all && bottom in all && (root.right == null || root.right in all)
    requires dummy.left != null ==>
               var p := JoinRight(Ptrs(all), bottom, root.right)[dummy].left; p != null && p in all
    modifies all`left, all`right, all`parent
    ensures Ptrs(all) == MergeRight(old(Ptrs(all)), dummy, bottom, root)
  {
    if dummy.left != null {
      hide JoinRight, SetRight, SetParent;
      JoinToRight(root, bottom, all);
      AdoptRight(root, dummy.left, all);
    }
  }

  /** Searching for `key`: beyond an element that is not before the key, everything is after it. */
  ghost predicate Monotone<T>(cmp: (T, T) -> int, key: T, s: seq<Node<T>>) {
    forall i, j | 0 <= i < j < |s| :: cmp(key, s[i].data) <= 0 ==> cmp(key, s[j].data) < 0
  }

  /** The first i elements come before the key, the last j after it. */
  ghost predicate Between<T>(cmp: (T, T) -> int, key: T, s: seq<Node<T>>, i: nat, j: nat) {
    && (forall k | 0 <= k < i && k < |s| :: cmp(key, s[k].data) > 0)
    && (forall k | |s| - j <= k < |s| && 0 <= k :: cmp(key, s[k].data) < 0)
  }

  /** The tree cut in three: the left tree, the node x with its subtrees, the right tree. */
  datatype Cut<T> = Cut(cl: Ctx<T>, a: Tree<T>, x: Node<T>, b: Tree<T>, cr: Ctx<T>)

  ghost function InOrder<T>(k: Cut<T>): seq<Node<T>> {
    CutSeq(k.cl, k.a, k.x, k.b, k.cr)
  }

  ghost function Outside<T>(k: Cut<T>): nat {
    |LeftSeq(k.cl)| + |RightSeq(k.cr)|
  }

  ghost predicate Cutting<T>(m: Heap<T>, k: Cut<T>, dl: Node<T>, dr: Node<T>) {
    && Split(m, k.cl, k.a, k.x, k.b, k.cr) && LeftSpine(k.cl, dl) && RightSpine(k.cr, dr)
  }

  /** Nothing in the left tree is from the key on, nothing in the right tree up to it. */
  ghost predicate Searching<T>(cmp: (T, T) -> int, key: T, s: seq<Node<T>>, k: Cut<T>) {
    && InOrder(k) == s && Monotone(cmp, key, s)
    && Between(cmp, key, s, |LeftSeq(k.cl)|, |RightSeq(k.cr)|)
  }

  lemma CutRightSearching<T>(cmp: (T, T) -> int, key: T, s: seq<Node<T>>, k: Cut<T>)
    requires Searching(cmp, key, s, k) && k.a.Fork? && k.cr.LeftOf? && cmp(key, k.x.data) < 0
    ensures var k' := Cut(k.cl, k.a.left, k.a.node, k.a.right, LeftOf(k.cr, k.x, k.b));
            Searching(cmp, key, s, k') && Outside(k) < Outside(k') <= |s|
  {
    var k' := Cut(k.cl, k.a.left, k.a.node, k.a.right, LeftOf(k.cr, k.x, k.b));
    ForkOrder(k.a.left, k.a.node, k.a.right);
    assert RightSeq(k'.cr) == [k.x] + Inorder(k.b) + RightSeq(k.cr);
    assert InOrder(k') == LeftSeq(k.cl) + Inorder(k.a) + ([k.x] + Inorder(k.b) + RightSeq(k.cr));
    var i := |LeftSeq(k.cl)| + |Inorder(k.a)|;
    assert s[i] == k.x;
  }

  lemma CutLeftSearching<T>(cmp: (T, T) -> int, key: T, s: seq<Node<T>>, k: Cut<T>)
    requires Searching(cmp, key, s, k) && k.b.Fork? && k.cl.RightOf? && cmp(key, k.x.data) > 0
    ensures var k' := Cut(RightOf(k.cl, k.a, k.x), k.b.left, k.b.node, k.b.right, k.cr);
            Searching(cmp, key, s, k') && Outside(k) < Outside(k') <= |s|
  {
    var k' := Cut(RightOf(k.cl, k.a, k.x), k.b.left, k.b.node, k.b.right, k.cr);
    ForkOrder(k.b.left, k.b.node, k.b.right);
    assert LeftSeq(k'.cl) == LeftSeq(k.cl) + (Inorder(k.a) + [k.x]);
    assert InOrder(k') == LeftSeq(k.cl) + (Inorder(k.a) + [k.x]) + Inorder(k.b) + RightSeq(k.cr);
    var i := |LeftSeq(k.cl)| + |Inorder(k.a)|;
    assert s[i] == k.x;
  }

  lemma LiftLeftSearching<T>(cmp: (T, T) -> int, key: T, s: seq<Node<T>>, k: Cut<T>)
    requires Searching(cmp, key, s, k) && k.a.Fork?
    ensures var k' := Cut(k.cl, k.a.left, k.a.node, Fork(k.a.right, k.x, k.b), k.cr);
            Searching(cmp, key, s, k') && Outside(k) == Outside(k')
  {
    ForkOrder(k.a.left, k.a.node, k.a.right);
    ForkOrder(k.a.right, k.x, k.b);
  }

  lemma LiftRightSearching<T>(cmp: (T, T) -> int, key: T, s: seq<Node<T>>, k: Cut<T>)
    requires Searching(cmp, key, s, k) && k.b.Fork?
    ensures var k' := Cut(k.cl, Fork(k.a, k.x, k.b.left), k.b.node, k.b.right, k.cr);
            Searching(cmp, key, s, k') && Outside(k) == Outside(k')
  {
    ForkOrder(k.b.left, k.b.node, k.b.right);
    ForkOrder(k.a, k.x, k.b.left);
  }

  /** The root of a tree, or null. */
  ghost function RootOf<T>(t: Tree<T>): Node?<T> {
    if t.Fork? then t.node else null
  }

  lemma ShapeRoot<T>(m: Heap<T>, t: Tree<T>, p: Node?<T>, parent: Node?<T>)
    requires Shape(m, t, p, parent)
    ensures p == RootOf(t)
    ensures t.Fork? ==> t.node in m && m[t.node].left == RootOf(t.left) && m[t.node].right == RootOf(t.right)
  {
    if t.Fork? {
      assert Shape(m, t.left, m[t.node].left, t.node) && Shape(m, t.right, m[t.node].right, t.node);
    }
  }

  /** The ends of both trees, and which subtrees there are, can be read off the pointers. */
  lemma CuttingParts<T>(m: Heap<T>, k: Cut<T>, dl: Node<T>, dr: Node<T>)
    requires Cutting(m, k, dl, dr)
    ensures k.x in m && k.cl.RightOf? && k.cr.LeftOf? && k.cl.node in m && k.cr.node in m
    ensures m[k.x].left == RootOf(k.a) && m[k.x].right == RootOf(k.b)
    ensures k.a.Fork? ==>
              k.a.node in m && m[k.a.node].left == RootOf(k.a.left) && m[k.a.node].right == RootOf(k.a.right)
    ensures k.b.Fork? ==>
              k.b.node in m && m[k.b.node].left == RootOf(k.b.left) && m[k.b.node].right == RootOf(k.b.right)
  {
    hide Shape, Disjoint;
    ShapeRoot(m, k.a, m[k.x].left, k.x);
    ShapeRoot(m, k.b, m[k.x].right, k.x);
  }

  method PushRight<T>(root: Node<T>, child: Node<T>, bottom: Node<T>, ghost all: set<Node<T>>, ghost k: Cut<T>,
                      ghost dl: Node<T>, ghost dr: Node<T>)
    returns (ghost k': Cut<T>)
    requires Cutting(Ptrs(all), k, dl, dr) && k.a.Fork? && k.cr.LeftOf? && bottom == k.cr.node && root == k.x
             && child == k.a.node
    modifies all`left, all`right, all`parent
    ensures k' == Cut(k.cl, k.a.left, k.a.node, k.a.right, LeftOf(k.cr, k.x, k.b))
    ensures Cutting(Ptrs(all), k', dl, dr) && child in all && child.parent == null
  {
    hide Split, CutRight, RightSpine, LeftSpine;
    CuttingParts(Ptrs(all), k, dl, dr);
    CutRightSplit(Ptrs(all), k.cl, k.a.left, k.a.node, k.a.right, k.x, k.b, k.cr);
    k' := Cut(k.cl, k.a.left, k.a.node, k.a.right, LeftOf(k.cr, k.x, k.b));
    CutToRight(root, child, bottom, all);
    SpineRight(k.cr, k.x, k.b, dr);
  }

  lemma SpineRight<T>(c: Ctx<T>, x: Node<T>, b: Tree<T>, dummy: Node<T>)
    requires RightSpine(c, dummy)
    ensures RightSpine(LeftOf(c, x, b), dummy)
  {
  }

  method PushLeft<T>(root: Node<T>, child: Node<T>, bottom: Node<T>, ghost all: set<Node<T>>, ghost k: Cut<T>,
                     ghost dl: Node<T>, ghost dr: Node<T>)
    returns (ghost k': Cut<T>)
    requires Cutting(Ptrs(all), k, dl, dr) && k.b.Fork? && k.cl.RightOf? && bottom == k.cl.node && root == k.x
             && child == k.b.node
    modifies all`left, all`right, all`parent
    ensures k' == Cut(RightOf(k.cl, k.a, k.x), k.b.left, k.b.node, k.b.right, k.cr)
    ensures Cutting(Ptrs(all), k', dl, dr) && child in all && child.parent == null
  {
    hide Split, CutLeft, RightSpine, LeftSpine;
    CuttingParts(Ptrs(all), k, dl, dr);
    CutLeftSplit(Ptrs(all), k.cl, k.a, k.x, k.b.left, k.b.node, k.b.right, k.cr);
    k' := Cut(RightOf(k.cl, k.a, k.x), k.b.left, k.b.node, k.b.right, k.cr);
    CutToLeft(root, child, bottom, all);
    SpineLeft(k.cl, k.x, k.a, dl);
  }

  lemma SpineLeft<T>(c: Ctx<T>, x: Node<T>, a: Tree<T>, dummy: Node<T>)
    requires LeftSpine(c, dummy)
    ensures LeftSpine(RightOf(c, a, x), dummy)
  {
  }

  method LiftFromLeft<T>(root: Node<T>, child: Node<T>, ghost all: set<Node<T>>, ghost k: Cut<T>,
                         ghost dl: Node<T>, ghost dr: Node<T>)
    returns (ghost k': Cut<T>)
    requires Cutting(Ptrs(all), k, dl, dr) && k.a.Fork? && root == k.x && child == k.a.node
    modifies all`left, all`right, all`parent
    ensures k' == Cut(k.cl, k.a.left, k.a.node, Fork(k.a.right, k.x, k.b), k.cr)
    ensures Cutting(Ptrs(all), k', dl, dr)
  {
    hide Split, LiftLeft, RightSpine, LeftSpine;
    LiftLeftSplit(Ptrs(all), k.cl, k.a.left, k.a.node, k.a.right, k.x, k.b, k.cr);
    CuttingParts(Ptrs(all), k, dl, dr);
    k' := Cut(k.cl, k.a.left, k.a.node, Fork(k.a.right, k.x, k.b), k.cr);
    RotateRight(child, root, all);
  }

  method LiftFromRight<T>(root: Node<T>, child: Node<T>, ghost all: set<Node<T>>, ghost k: Cut<T>,
                          ghost dl: Node<T>, ghost dr: Node<T>)
    returns (ghost k': Cut<T>)
    requires Cutting(Ptrs(all), k, dl, dr) && k.b.Fork? && root == k.x && child == k.b.node
    modifies all`left, all`right, all`parent
    ensures k' == Cut(k.cl, Fork(k.a, k.x, k.b.left), k.b.node, k.b.right, k.cr)
    ensures Cutting(Ptrs(all), k', dl, dr)
  {
    hide Split, LiftRight, RightSpine, LeftSpine;
    LiftRightSplit(Ptrs(all), k.cl, k.a, k.x, k.b.left, k.b.node, k.b.right, k.cr);
    CuttingParts(Ptrs(all), k, dl, dr);
    k' := Cut(k.cl, Fork(k.a, k.x, k.b.left), k.b.node, k.b.right, k.cr);
    RotateLeft(child, root, all);
  }

  /** The state of the loop. */
  ghost predicate Descent<T>(m: Heap<T>, cmp: (T, T) -> int, key: T, s: seq<Node<T>>, k: Cut<T>,
                             root: Node<T>, lb: Node<T>, rb: Node<T>, dl: Node<T>, dr: Node<T>) {
    && Cutting(m, k, dl, dr) && Searching(cmp, key, s, k)
    && k.x == root && m[root].parent == null && k.cl.node == lb && k.cr.node == rb
  }

  /** The key is before `root`, which has a left child. */
  method DescendLeft<T>(cmp: (T, T) -> int, key: T, root: Node<T>, child: Node<T>, lb: Node<T>, rb: Node<T>,
                        ghost all: set<Node<T>>, ghost s: seq<Node<T>>, ghost k: Cut<T>, ghost dl: Node<T>,
                        ghost dr: Node<T>)
    returns (root': Node<T>, lb': Node<T>, rb': Node<T>, c: int, stop: bool, ghost k': Cut<T>)
    requires Descent(Ptrs(all), cmp, key, s, k, root, lb, rb, dl, dr)
    requires cmp(key, root.data) < 0 && root in all && root.left == child
    modifies all`left, all`right, all`parent
    ensures Descent(Ptrs(all), cmp, key, s, k', root', lb', rb', dl, dr) && Outside(k) < Outside(k') <= |s|
    ensures stop ==> c == cmp(key, root'.data) && (c < 0 ==> k'.a == Leaf) && (c > 0 ==> k'.b == Leaf)
  {
    hide Cutting, Searching, Outside;
    CuttingParts(Ptrs(all), k, dl, dr);
    stop := false;
    c := cmp(key, child.data);
    if c < 0 && child.left != null {
      var grandchild := child.left;
      LiftLeftSearching(cmp, key, s, k);
      k' := LiftFromLeft(root, child, all, k, dl, dr);
      CutRightSearching(cmp, key, s, k');
      k' := PushRight(child, grandchild, rb, all, k', dl, dr);
      root', lb', rb' := grandchild, lb, child;
    } else if c > 0 && child.right != null {
      var grandchild := child.right;
      CutRightSearching(cmp, key, s, k);
      k' := PushRight(root, child, rb, all, k, dl, dr);
      CutLeftSearching(cmp, key, s, k');
      k' := PushLeft(child, grandchild, lb, all, k', dl, dr);
      root', lb', rb' := grandchild, child, root;
    } else {
      CutRightSearching(cmp, key, s, k);
      k' := PushRight(root, child, rb, all, k, dl, dr);
      root', lb', rb' := child, lb, root;
      stop := true;
    }
  }

  /** The key is after `root`, which has a right child. */
  method DescendRight<T>(cmp: (T, T) -> int, key: T, root: Node<T>, child: Node<T>, lb: Node<T>, rb: Node<T>,
                        ghost all: set<Node<T>>, ghost s: seq<Node<T>>, ghost k: Cut<T>, ghost dl: Node<T>,
                        ghost dr: Node<T>)
    returns (root': Node<T>, lb': Node<T>, rb': Node<T>, c: int, stop: bool, ghost k': Cut<T>)
    requires Descent(Ptrs(all), cmp, key, s, k, root, lb, rb, dl, dr)
    requires cmp(key, root.data) > 0 && root in all && root.right == child
    modifies all`left, all`right, all`parent
    ensures Descent(Ptrs(all), cmp, key, s, k', root', lb', rb', dl, dr) && Outside(k) < Outside(k') <= |s|
    ensures stop ==> c == cmp(key, root'.data) && (c < 0 ==> k'.a == Leaf) && (c > 0 ==> k'.b == Leaf)
  {
    hide Cutting, Searching, Outside;
    CuttingParts(Ptrs(all), k, dl, dr);
    stop := false;
    c := cmp(key, child.data);
    if c > 0 && child.right != null {
      var grandchild := child.right;
      LiftRightSearching(cmp, key, s, k);
      k' := LiftFromRight(root, child, all, k, dl, dr);
      CutLeftSearching(cmp, key, s, k');
      k' := PushLeft(child, grandchild, lb, all, k', dl, dr);
      root', lb', rb' := grandchild, child, rb;
    } else if c < 0 && child.left != null {
      var grandchild := child.left;
      CutLeftSearching(cmp, key, s, k);
      k' := PushLeft(root, child, lb, all, k, dl, dr);
      CutRightSearching(cmp, key, s, k');
      k' := PushRight(child, grandchild, rb, all, k', dl, dr);
      root', lb', rb' := grandchild, root, child;
    } else {
      CutLeftSearching(cmp, key, s, k);
      k' := PushLeft(root, child, lb, all, k, dl, dr);
      root', lb', rb' := child, root, rb;
      stop := true;
    }
  }

  lemma MergeLeftReady<T>(m: Heap<T>, c: Ctx<T>, a: Tree<T>, x: Node<T>, dummy: Node<T>)
    requires LeftSpine(c, dummy) && Hangs(m, c, null) && CtxDistinct(c) && Distinct(a) && CtxNodes(c) !! Nodes(a)
    requires x in m && x !in CtxNodes(c) && x !in Nodes(a) && Shape(m, a, m[x].left, x)
    ensures dummy in m && c.node in m && (m[x].left == null || m[x].left in m)
    ensures m[dummy].right != null ==> var p := JoinLeft(m, c.node, m[x].left)[dummy].right; p != null && p in m
  {
    hide Shape, Distinct, CtxDistinct, Nodes, CtxNodes, JoinLeft, LeftTree;
    JoinLeftShape(m, c, a, m[x].left, x);
    var m1 := JoinLeft(m, c.node, m[x].left);
    LeftEmpty(m1, c, a, m[x].left, dummy);
    ShapeKeys(m1, LeftTree(c, a), m1[dummy].right, dummy);
    LeafHere(m, c.node);
    LeftEmpty(m, c, Leaf, null, dummy);
  }

  lemma MergeRightReady<T>(m: Heap<T>, c: Ctx<T>, b: Tree<T>, x: Node<T>, dummy: Node<T>)
    requires RightSpine(c, dummy) && Hangs(m, c, null) && CtxDistinct(c) && Distinct(b) && CtxNodes(c) !! Nodes(b)
    requires x in m && x !in CtxNodes(c) && x !in Nodes(b) && Shape(m, b, m[x].right, x)
    ensures dummy in m && c.node in m && (m[x].right == null || m[x].right in m)
    ensures m[dummy].left != null ==> var p := JoinRight(m, c.node, m[x].right)[dummy].left; p != null && p in m
  {
    hide Shape, Distinct, CtxDistinct, Nodes, CtxNodes, JoinRight, RightTree;
    JoinRightShape(m, c, b, m[x].right, x);
    var m1 := JoinRight(m, c.node, m[x].right);
    RightEmpty(m1, c, b, m[x].right, dummy);
    ShapeKeys(m1, RightTree(c, b), m1[dummy].left, dummy);
    LeafHere(m, c.node);
    RightEmpty(m, c, Leaf, null, dummy);
  }

  lemma MergedLeft<T>(m: Heap<T>, k: Cut<T>, dl: Node<T>, dr: Node<T>)
    requires Cutting(m, k, dl, dr)
    ensures dl in m && k.x in m && k.cl.RightOf? && k.cl.node in m && (m[k.x].left == null || m[k.x].left in m)
    ensures var m' := MergeLeft(m, dl, k.cl.node, k.x);
            && k.x in m' && Shape(m', LeftTree(k.cl, k.a), m'[k.x].left, k.x) && Shape(m', k.b, m'[k.x].right, k.x)
            && Hangs(m', k.cr, null) && m'[k.x].parent == m[k.x].parent
  {
    assert Disjoint(k.cl, k.a, k.x, k.b, k.cr);
    assert CtxNodes(k.cr) !! {k.x} + CtxNodes(k.cl) + Nodes(k.a) && Nodes(k.b) !! {k.x} + CtxNodes(k.cl) + Nodes(k.a);
    assert CtxDistinct(k.cl) && Distinct(k.a) && CtxNodes(k.cl) !! Nodes(k.a);
    hide Shape, Hangs, MergeLeft, Disjoint, CtxNodes, Nodes, LeftTree, LeftSpine, RightSpine, Distinct, CtxDistinct;
    MergeLeftShape(m, k.cl, k.a, k.x, dl);
    var m' := MergeLeft(m, dl, k.cl.node, k.x);
    ShapeKeys(m, k.b, m[k.x].right, k.x);
    HangsKeys(m, k.cr, null);
    ShapeFrame(m, m', k.b, m[k.x].right, k.x, Nodes(k.b));
    HangsFrame(m, m', k.cr, null, CtxNodes(k.cr));
  }

  /** The tree put together again. */
  ghost function Whole<T>(k: Cut<T>): Tree<T> {
    Fork(LeftTree(k.cl, k.a), k.x, RightTree(k.cr, k.b))
  }

  lemma WholeOrder<T>(k: Cut<T>, dl: Node<T>, dr: Node<T>)
    requires LeftSpine(k.cl, dl) && RightSpine(k.cr, dr)
    ensures Inorder(Whole(k)) == InOrder(k) && |Inorder(Whole(k).left)| == |LeftSeq(k.cl)| + |Inorder(k.a)|
  {
    LeftTreePlug(k.cl, k.a, dl);
    RightTreePlug(k.cr, k.b, dr);
    ForkOrder(LeftTree(k.cl, k.a), k.x, RightTree(k.cr, k.b));
    hide Inorder, LeftTree, RightTree;
    calc {
      LeftSeq(k.cl) + Inorder(k.a) + [k.x] + (Inorder(k.b) + RightSeq(k.cr));
      LeftSeq(k.cl) + (Inorder(k.a) + [k.x] + Inorder(k.b)) + RightSeq(k.cr);
    }
  }

  lemma WholeDistinct<T>(k: Cut<T>, dl: Node<T>, dr: Node<T>)
    requires Disjoint(k.cl, k.a, k.x, k.b, k.cr) && LeftSpine(k.cl, dl) && RightSpine(k.cr, dr)
    ensures Distinct(Whole(k)) && dl !in Nodes(Whole(k)) && dr !in Nodes(Whole(k))
    ensures Nodes(LeftTree(k.cl, k.a)) !! {k.x} + CtxNodes(k.cr) + Nodes(k.b)
  {
    hide Distinct, CtxDistinct, Nodes, CtxNodes, LeftTree, RightTree;
    LeftTreeDistinct(k.cl, k.a, dl);
    RightTreeDistinct(k.cr, k.b, dr);
    ForkDistinct(LeftTree(k.cl, k.a), k.x, RightTree(k.cr, k.b));
  }

  lemma MergedBoth<T>(m: Heap<T>, m1: Heap<T>, k: Cut<T>, dl: Node<T>, dr: Node<T>)
    requires Cutting(m, k, dl, dr) && m[k.x].parent == null
    requires dl in m && k.cl.RightOf? && k.cl.node in m && (m[k.x].left == null || m[k.x].left in m)
    requires m1 == MergeLeft(m, dl, k.cl.node, k.x)
    ensures dr in m1 && k.x in m1 && k.cr.LeftOf? && k.cr.node in m1 && (m1[k.x].right == null || m1[k.x].right in m1)
    ensures m1[dr].left != null ==> var p := JoinRight(m1, k.cr.node, m1[k.x].right)[dr].left; p != null && p in m1
    ensures Shape(MergeRight(m1, dr, k.cr.node, k.x), Whole(k), k.x, null)
  {
    MergedLeft(m, k, dl, dr);
    WholeDistinct(k, dl, dr);
    assert CtxDistinct(k.cr) && Distinct(k.b) && CtxNodes(k.cr) !! Nodes(k.b);
    hide Shape, Hangs, MergeRight, MergeLeft, JoinRight, Disjoint, CtxNodes, Nodes, LeftTree, RightTree, LeftSpine,
         RightSpine, Distinct, CtxDistinct;
    MergeRightReady(m1, k.cr, k.b, k.x, dr);
    MergeRightShape(m1, k.cr, k.b, k.x, dr);
    var m2 := MergeRight(m1, dr, k.cr.node, k.x);
    var l := LeftTree(k.cl, k.a);
    ShapeKeys(m1, l, m1[k.x].left, k.x);
    ShapeFrame(m1, m2, l, m1[k.x].left, k.x, Nodes(l));
    ForkShape(m2, l, k.x, RightTree(k.cr, k.b), null);
  }

  method Merge<T>(root: Node<T>, dl: Node<T>, dr: Node<T>, lb: Node<T>, rb: Node<T>, ghost all: set<Node<T>>,
                  ghost k: Cut<T>)
    requires Cutting(Ptrs(all), k, dl, dr) && root == k.x && root.parent == null && lb == k.cl.node && rb == k.cr.node
    modifies all`left, all`right, all`parent
    ensures Shape(Ptrs(all), Whole(k), root, null)
  {
    ghost var m := Ptrs(all);
    assert CtxDistinct(k.cl) && Distinct(k.a) && CtxNodes(k.cl) !! Nodes(k.a);
    hide Shape, Hangs, MergeRight, MergeLeft, JoinLeft, JoinRight, Disjoint, CtxNodes, Nodes, LeftTree, RightTree,
         LeftSpine, RightSpine, Whole;
    MergeLeftReady(m, k.cl, k.a, k.x, dl);
    MergedBoth(m, MergeLeft(m, dl, k.cl.node, k.x), k, dl, dr);
    MergeFromLeft(root, dl, lb, all);
    MergeFromRight(root, dr, rb, all);
  }

  /** What comes before position i is before the key, what comes after it is after the key. */
  ghost predicate Closest<T>(cmp: (T, T) -> int, key: T, s: seq<Node<T>>, i: nat) {
    && i < |s|
    && (forall k | 0 <= k < i :: cmp(key, s[k].data) > 0)
    && (forall k | i < k < |s| :: cmp(key, s[k].data) < 0)
  }

  lemma SearchEnds<T>(cmp: (T, T) -> int, key: T, s: seq<Node<T>>, k: Cut<T>, c: int)
    requires Searching(cmp, key, s, k) && c == cmp(key, k.x.data)
    requires (c < 0 ==> k.a == Leaf) && (c > 0 ==> k.b == Leaf)
    ensures Closest(cmp, key, s, |LeftSeq(k.cl)| + |Inorder(k.a)|)
  {
    var i := |LeftSeq(k.cl)| + |Inorder(k.a)|;
    assert s[i] == k.x;
    assert |s| == i + 1 + |Inorder(k.b)| + |RightSeq(k.cr)|;
    assert c < 0 ==> i == |LeftSeq(k.cl)|;
    assert c > 0 ==> i + 1 + |RightSeq(k.cr)| == |s|;
  }

  lemma StartCut<T>(m: Heap<T>, m': Heap<T>, t: Tree<T>, root: Node<T>, dl: Node<T>, dr: Node<T>, cmp: (T, T) -> int,
                    key: T)
    requires Shape(m, t, root, null) && Distinct(t) && Nodes(t) == m.Keys && Monotone(cmp, key, Inorder(t))
    requires dl !in m && dr !in m && dl != dr && dl in m' && dr in m' && Agree(m, m', Nodes(t))
    requires m'[dl].left == null && m'[dl].right == null && m'[dl].parent == null
    requires m'[dr].left == null && m'[dr].right == null && m'[dr].parent == null
    ensures t.Fork?
    ensures Descent(m', cmp, key, Inorder(t),
                    Cut(RightOf(Top, Leaf, dl), t.left, root, t.right, LeftOf(Top, dr, Leaf)), root, dl, dr, dl, dr)
  {
    ShapeFrame(m, m', t, root, null, Nodes(t));
    SubDistinct(t.left, t.node, t.right);
    ForkParts(m', t.left, t.node, t.right, root, null);
    ForkOrder(t.left, t.node, t.right);
    DummiesHang(m', dl, dr);
    var cl, cr := RightOf(Top, Leaf, dl), LeftOf(Top, dr, Leaf);
    hide Shape, Hangs, Distinct, CtxDistinct, Nodes, CtxNodes, Inorder;
    assert Split(m', cl, t.left, root, t.right, cr);
    assert LeftSeq(cl) == [] && RightSeq(cr) == [];
    assert [] + Inorder(t) + [] == Inorder(t);
  }

  lemma DummiesHang<T>(m: Heap<T>, dl: Node<T>, dr: Node<T>)
    requires dl in m && dr in m && dl != dr
    requires m[dl].left == null && m[dl].right == null && m[dl].parent == null
    requires m[dr].left == null && m[dr].right == null && m[dr].parent == null
    ensures var cl, cr := RightOf(Top, Leaf, dl), LeftOf(Top, dr, Leaf);
            && Hangs(m, cl, null) && Hangs(m, cr, null) && CtxDistinct(cl) && CtxDistinct(cr)
            && CtxNodes(cl) == {dl} && CtxNodes(cr) == {dr}
  {
  }

  /** The loop of splay_top_down. */
  method Descend<T>(cmp: (T, T) -> int, key: T, top: Node<T>, left: Node<T>, right: Node<T>,
                    ghost all: set<Node<T>>, ghost s: seq<Node<T>>, ghost k0: Cut<T>)
    returns (root: Node<T>, leftbottom: Node<T>, rightbottom: Node<T>, c: int, ghost k: Cut<T>)
    requires Descent(Ptrs(all), cmp, key, s, k0, top, left, right, left, right)
    modifies all`left, all`right, all`parent
    ensures Descent(Ptrs(all), cmp, key, s, k, root, leftbottom, rightbottom, left, right)
    ensures c == cmp(key, root.data) && (c < 0 ==> k.a == Leaf) && (c > 0 ==> k.b == Leaf)
    ensures root in all && root.parent == null
  {
    hide Cutting, Searching, Outside;
    root, leftbottom, rightbottom, k := top, left, right, k0;
    CuttingParts(Ptrs(all), k, left, right);
    c := cmp(key, root.data);
    while c != 0
      invariant Descent(Ptrs(all), cmp, key, s, k, root, leftbottom, rightbottom, left, right)
      invariant c == cmp(key, root.data) && root in all && root.left == RootOf(k.a) && root.right == RootOf(k.b)
      decreases |s| - Outside(k)
    {
      var stop := true;
      if c < 0 && root.left != null {
        root, leftbottom, rightbottom, c, stop, k :=
          DescendLeft(cmp, key, root, root.left, leftbottom, rightbottom, all, s, k, left, right);
      } else if c > 0 && root.right != null {
        root, leftbottom, rightbottom, c, stop, k :=
          DescendRight(cmp, key, root, root.right, leftbottom, rightbottom, all, s, k, left, right);
      }
      CuttingParts(Ptrs(all), k, left, right);
      if stop {
        break;
      }
      c := cmp(key, root.data);
    }
  }

  /** splay_top_down once both dummy nodes are there. */
  method SplayBetween<T>(cmp: (T, T) -> int, key: T, top: Node<T>, left: Node<T>, right: Node<T>,
                         ghost all: set<Node<T>>, ghost nodes: set<Node<T>>, ghost t: Tree<T>, ghost k0: Cut<T>)
    returns (root: Node<T>, c: int, ghost t': Tree<T>)
    requires Descent(Ptrs(all), cmp, key, Inorder(t), k0, top, left, right, left, right) && Nodes(t) == nodes
    modifies all`left, all`right, all`parent
    ensures t'.Fork? && t'.node == root && c == cmp(key, root.data)
    ensures Shape(Ptrs(all), t', root, null) && Distinct(t') && Nodes(t') == nodes && Inorder(t') == Inorder(t)
    ensures Closest(cmp, key, Inorder(t), |Inorder(t'.left)|)
  {
    hide Cutting, Searching, Shape, Closest, Distinct, Nodes, Inorder, Whole;
    var leftbottom, rightbottom;
    ghost var k;
    root, leftbottom, rightbottom, c, k := Descend(cmp, key, top, left, right, all, Inorder(t), k0);
    SearchEnds(cmp, key, Inorder(t), k, c);
    t' := Whole(k);
    WholeFacts(Ptrs(all), nodes, k, t, left, right, cmp, key);
    Merge(root, left, right, leftbottom, rightbottom, all, k);
  }

  /** splay_top_down: bring the element closest to the key to the root. */
  method SplayDown<T>(cmp: (T, T) -> int, key: T, top: Node<T>, ghost nodes: set<Node<T>>, ghost t: Tree<T>)
    returns (root: Node<T>, c: int, ghost t': Tree<T>)
    requires Shape(Ptrs(nodes), t, top, null) && Distinct(t) && Nodes(t) == nodes && Monotone(cmp, key, Inorder(t))
    modifies nodes`left, nodes`right, nodes`parent
    ensures t'.Fork? && t'.node == root && c == cmp(key, root.data)
    ensures Shape(Ptrs(nodes), t', root, null) && Distinct(t') && Nodes(t') == nodes && Inorder(t') == Inorder(t)
    ensures Closest(cmp, key, Inorder(t), |Inorder(t'.left)|)
  {
    hide Descent, Shape, Closest, Distinct, Nodes, Inorder, Monotone;
    var left := new Node(top.data);
    var right := new Node(top.data);
    ghost var all := nodes + {left, right};
    StartCut(Ptrs(nodes), Ptrs(all), t, top, left, right, cmp, key);
    ghost var k := Cut(RightOf(Top, Leaf, left), t.left, top, t.right, LeftOf(Top, right, Leaf));
    root, c, t' := SplayBetween(cmp, key, top, left, right, all, nodes, t, k);
    SmallerHeap(nodes, all, t', root);
  }

  lemma SmallerHeap<T>(nodes: set<Node<T>>, all: set<Node<T>>, t: Tree<T>, root: Node<T>)
    requires nodes <= all && Shape(Ptrs(all), t, root, null) && Nodes(t) <= nodes
    ensures Shape(Ptrs(nodes), t, root, null)
  {
    ShapeFrame(Ptrs(all), Ptrs(nodes), t, root, null, nodes);
  }

  lemma WholeFacts<T>(m: Heap<T>, nodes: set<Node<T>>, k: Cut<T>, t: Tree<T>, dl: Node<T>, dr: Node<T>,
                      cmp: (T, T) -> int, key: T)
    requires Cutting(m, k, dl, dr) && Searching(cmp, key, Inorder(t), k) && Nodes(t) == nodes
    ensures Distinct(Whole(k)) && Inorder(Whole(k)) == Inorder(t) && Nodes(Whole(k)) == nodes
    ensures Whole(k).Fork? && Whole(k).node == k.x && |Inorder(Whole(k).left)| == |LeftSeq(k.cl)| + |Inorder(k.a)|
  {
    WholeDistinct(k, dl, dr);
    WholeOrder(k, dl, dr);
    InorderNodes(t);
    InorderNodes(Whole(k));
    hide *;
    SameSet(Inorder(t), Nodes(t), Nodes(Whole(k)));
  }

  lemma SameSet<T>(s: seq<Node<T>>, a: set<Node<T>>, b: set<Node<T>>)
    requires SameElements(s, a) && SameElements(s, b)
    ensures a == b
  {
  }
}
