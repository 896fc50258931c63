/** The red-black tree of rb_tree.c: parent-linked nodes around one shared sentinel. */
module RbTree {
  import opened Options
  import opened Orders
  import opened BinTree
  import opened RbShape
  import opened Stack

  class Node {
    var color: Color
    var parent: Node?
    var lchild: Node?
    var rchild: Node?
    var data: Data

    /** A block from the allocator with its colour set. */
    constructor (color: Color)
      ensures this.color == color
    {
      this.color := color;
      parent, lchild, rchild := null, null, null;
    }
  }

  const RBT_MAX_DEPTH := 512

  type RTree = Tree<Node, Color>
  type RCtx = Ctx<Node, Color>

  /** The nodes of `t` are in the heap as `t` says, hanging below `p`; `x` is the root pointer. */
  ghost predicate Rep(t: RTree, x: Node?, p: Node?, nil: Node)
    reads Nodes(t)
  {
    match t
    case Leaf => x == nil
    case Bin(n, m, d, l, r) =>
      && x == n && n.parent == p && n.color == m && n.data == d
      && Rep(l, n.lchild, n, nil) && Rep(r, n.rchild, n, nil)
      && n !in Nodes(l) && n !in Nodes(r) && Nodes(l) !! Nodes(r)
  }

  /** The parent of the hole of `c`. */
  ghost function HoleParent(c: RCtx, nil: Node): Node {
    if c.Top? then nil else c.n
  }

  ghost function RootOf(t: RTree, nil: Node): Node {
    if t.Leaf? then nil else t.n
  }

  /** The nodes around the hole of `c` are in the heap as `c` says; `x` is the pointer in the hole. */
  ghost predicate CRep(c: RCtx, root: Node?, x: Node?, nil: Node)
    reads CNodes(c)
  {
    match c
    case Top => root == x
    case InL(n, m, d, r, up) =>
      && n.lchild == x && n.color == m && n.data == d && n.parent == HoleParent(up, nil)
      && Rep(r, n.rchild, n, nil) && CRep(up, root, n, nil)
      && n !in Nodes(r) && n !in CNodes(up) && Nodes(r) !! CNodes(up)
    case InR(n, m, d, l, up) =>
      && n.rchild == x && n.color == m && n.data == d && n.parent == HoleParent(up, nil)
      && Rep(l, n.lchild, n, nil) && CRep(up, root, n, nil)
      && n !in Nodes(l) && n !in CNodes(up) && Nodes(l) !! CNodes(up)
  }

  lemma {:induction false} RootInContext(c: RCtx, root: Node?, x: Node?, nil: Node)
    requires CRep(c, root, x, nil) && !c.Top?
    ensures root in CNodes(c)
  {
    if !c.up.Top? {
      RootInContext(c.up, root, c.n, nil);
    }
  }

  class RbTree {
    const cmp: Order
    var num: int
    var root: Node
    var sentinel: Node
    ghost var Repr: set<Node>
    ghost var Shape: RTree

    /** `t` is the subtree below `x`, and `c` is the rest of the tree. */
    ghost predicate Linked(c: RCtx, t: RTree, x: Node?)
      reads this, CNodes(c), Nodes(t)
    {
      && CNodes(c) <= Repr && Nodes(t) <= Repr && sentinel !in Repr
      && Rep(t, x, HoleParent(c, sentinel), sentinel)
      && CRep(c, root, x, sentinel)
      && CNodes(c) !! Nodes(t)
    }

    lemma Up(c: RCtx, t: RTree, x: Node?)
      requires Linked(c, t, x) && !c.Top?
      ensures Linked(c.up, Join(c, t), c.n)
    {
    }

    /** Down again: the inverse of `Up`. */
    lemma Back(c: RCtx, t: RTree)
      requires !c.Top? && Linked(c.up, Join(c, t), c.n)
      ensures Linked(c, t, RootOf(t, sentinel))
    {
      assert Rep(t, if c.InL? then c.n.lchild else c.n.rchild, c.n, sentinel);
    }

    lemma DownL(c: RCtx, t: RTree, x: Node?)
      requires Linked(c, t, x) && t.Bin?
      ensures Linked(InL(t.n, t.m, t.d, t.r, c), t.l, t.n.lchild)
    {
    }

    lemma DownR(c: RCtx, t: RTree, x: Node?)
      requires Linked(c, t, x) && t.Bin?
      ensures Linked(InR(t.n, t.m, t.d, t.l, c), t.r, t.n.rchild)
    {
    }

    /** What the fields of a node tell about the tree around it. */
    lemma Peek(c: RCtx, t: RTree, x: Node?)
      requires Linked(c, t, x)
      ensures x == RootOf(t, sentinel) && (x == sentinel <==> t.Leaf?)
      ensures t.Bin? ==> x == t.n && x.color == t.m && x.data == t.d && x.parent == HoleParent(c, sentinel)
      ensures t.Bin? ==> x.lchild != null && (x.lchild == sentinel <==> t.l.Leaf?)
      ensures t.Bin? ==> x.rchild != null && (x.rchild == sentinel <==> t.r.Leaf?)
    {
      assert t.Bin? ==> Rep(t.l, t.n.lchild, t.n, sentinel) && Rep(t.r, t.n.rchild, t.n, sentinel);
    }

    /** From one child to the other. */
    lemma Across(c: RCtx, t: RTree, x: Node?) returns (c': RCtx)
      requires Linked(c, t, x) && !c.Top?
      ensures c.InL? ==> c' == InR(c.n, c.m, c.d, t, c.up) && Linked(c', c.r, c.n.rchild)
      ensures c.InR? ==> c' == InL(c.n, c.m, c.d, t, c.up) && Linked(c', c.l, c.n.lchild)
    {
      c' := if c.InL? then InR(c.n, c.m, c.d, t, c.up) else InL(c.n, c.m, c.d, t, c.up);
    }

    /** Which child of its parent a node is can be told by comparing pointers,
        unless both children are the sentinel. */
    lemma Side(c: RCtx, t: RTree, x: Node?)
      requires Linked(c, t, x) && !c.Top?
      requires t.Bin? || (c.InR? ==> c.l.Bin?)
      ensures c.n.lchild == x <==> c.InL?
    {
      if c.InR? {
        assert Rep(c.l, c.n.lchild, c.n, sentinel);
      }
    }

    lemma IsTop(c: RCtx, t: RTree, node: Node)
      requires Linked(c, t, node)
      ensures c.Top? <==> node == root
    {
      if !c.Top? {
        RootInContext(c, root, node, sentinel);
      }
    }

    method SetColor(node: Node, color: Color, ghost c: RCtx, ghost t: RTree)
      requires t.Bin? && Linked(c, t, node)
      modifies Repr`color
      ensures Linked(c, t.(m := color), node)
    {
      node.color := color;
    }

    /** `child` (the root of `a`, or the sentinel) takes the place of `node` below `parent`; the other
        subtree `b` of `node`, at `y`, stays as it is.  This starts both rotations and the removal
        of a node. */
    method Hang(parent: Node, node: Node, child: Node, ghost c: RCtx, ghost a: RTree, ghost b: RTree, ghost y: Node?)
      requires CRep(c, root, node, sentinel) && parent == HoleParent(c, sentinel)
      requires sentinel !in CNodes(c) && node !in CNodes(c) && sentinel != node
      requires Rep(a, child, node, sentinel) && CNodes(c) !! Nodes(a) && sentinel !in Nodes(a)
      requires Rep(b, y, node, sentinel) && CNodes(c) !! Nodes(b) && Nodes(a) !! Nodes(b)
      requires child !in CNodes(c) && child !in Nodes(b)
      modifies this`root, CNodes(c)`lchild, CNodes(c)`rchild, child`parent
      ensures CRep(c, root, child, sentinel) && child.parent == parent
      ensures Rep(a, child, parent, sentinel) && Rep(b, y, node, sentinel)
    {
      assert c.InR? ==> Rep(c.l, c.n.lchild, c.n, sentinel);
      if sentinel == parent {
        root := child;
        child.parent := sentinel;
      } else if node == parent.lchild {
        parent.lchild := child;
        child.parent := parent;
      } else {
        parent.rchild := child;
        child.parent := parent;
      }
    }

    /** Three disjoint subtrees, and two nodes outside them. */
    static ghost predicate Apart(a: RTree, b: RTree, e: RTree, x: Node, y: Node) {
      && Nodes(a) !! Nodes(b) && Nodes(a) !! Nodes(e) && Nodes(b) !! Nodes(e)
      && x != y && {x, y} !! Nodes(a) && {x, y} !! Nodes(b) && {x, y} !! Nodes(e)
    }

    /** The subtree `b` at `x` gets the parent p, unless it is empty. */
    method LinkParent(x: Node?, p: Node, ghost q: Node, ghost b: RTree)
      requires Rep(b, x, q, sentinel) && sentinel !in Nodes(b)
      modifies Nodes(b)`parent
      ensures Rep(b, x, p, sentinel)
    {
      if sentinel != x {
        x.parent := p;
      }
    }

    /** Second half of a right rotation: `node` gets the inner subtree `b` of `lchild` and becomes
        its right child; the outer subtrees `a` and `e` keep their places. */
    method AdoptRight(node: Node, lchild: Node, ghost c: RCtx, ghost a: RTree, ghost b: RTree, ghost e: RTree)
      requires CRep(c, root, lchild, sentinel)
      requires Rep(a, lchild.lchild, lchild, sentinel)
      requires Rep(b, lchild.rchild, lchild, sentinel)
      requires Rep(e, node.rchild, node, sentinel)
      requires Apart(a, b, e, node, lchild) && sentinel !in Nodes(b)
      requires CNodes(c) !! {node, lchild} && CNodes(c) !! Nodes(b)
      requires Nodes(a) <= Repr && Nodes(b) <= Repr && Nodes(e) <= Repr && CNodes(c) <= Repr
      modifies node`lchild, node`parent, lchild`rchild, Nodes(b)`parent
      ensures lchild.rchild == node && node.parent == lchild
      ensures Rep(a, lchild.lchild, lchild, sentinel)
      ensures Rep(b, node.lchild, node, sentinel)
      ensures Rep(e, node.rchild, node, sentinel)
      ensures CRep(c, root, lchild, sentinel)
    {
      hide CRep, Rep, Nodes, CNodes;
      node.lchild := lchild.rchild;
      LinkParent(lchild.rchild, node, lchild, b);
      lchild.rchild := node;
      node.parent := lchild;
    }

    method AdoptLeft(node: Node, rchild: Node, ghost c: RCtx, ghost a: RTree, ghost b: RTree, ghost e: RTree)
      requires CRep(c, root, rchild, sentinel)
      requires Rep(a, node.lchild, node, sentinel)
      requires Rep(b, rchild.lchild, rchild, sentinel)
      requires Rep(e, rchild.rchild, rchild, sentinel)
      requires Apart(a, b, e, node, rchild) && sentinel !in Nodes(b)
      requires CNodes(c) !! {node, rchild} && CNodes(c) !! Nodes(b)
      requires Nodes(a) <= Repr && Nodes(b) <= Repr && Nodes(e) <= Repr && CNodes(c) <= Repr
      modifies node`rchild, node`parent, rchild`lchild, Nodes(b)`parent
      ensures rchild.lchild == node && node.parent == rchild
      ensures Rep(a, node.lchild, node, sentinel)
      ensures Rep(b, node.rchild, node, sentinel)
      ensures Rep(e, rchild.rchild, rchild, sentinel)
      ensures CRep(c, root, rchild, sentinel)
    {
      hide CRep, Rep, Nodes, CNodes;
      node.rchild := rchild.lchild;
      LinkParent(rchild.lchild, node, rchild, b);
      rchild.lchild := node;
      node.parent := rchild;
    }

    lemma OpenRight(c: RCtx, t: RTree, node: Node)
      requires t.Bin? && t.l.Bin? && Linked(c, t, node)
      ensures node == t.n && node.lchild == t.l.n && node.parent == HoleParent(c, sentinel)
      ensures Rep(t.l, node.lchild, node, sentinel) && Rep(t.r, node.rchild, node, sentinel)
      ensures Apart(t.l.l, t.l.r, t.r, node, t.l.n)
      ensures CNodes(c) !! {node, t.l.n} && CNodes(c) !! Nodes(t.l.r) && CNodes(c) !! Nodes(t.l)
      ensures CNodes(c) !! Nodes(t.r)
      ensures Nodes(t.l) !! Nodes(t.r) && Nodes(t.l.r) <= Repr && {node, t.l.n} <= Repr
      ensures Nodes(t.l.l) <= Repr && Nodes(t.r) <= Repr && CNodes(c) <= Repr
      ensures sentinel !in Nodes(t.l.r) && sentinel !in Nodes(t.l)
    {
      hide CRep;
      assert Rep(t.l, node.lchild, node, sentinel);
    }

    lemma CloseRight(c: RCtx, t: RTree, node: Node, lchild: Node)
      requires t.Bin? && t.l.Bin? && node == t.n && lchild == t.l.n
      requires CNodes(c) <= Repr && Nodes(t) <= Repr && sentinel !in Repr && CNodes(c) !! Nodes(t)
      requires CRep(c, root, lchild, sentinel) && lchild.parent == HoleParent(c, sentinel)
      requires lchild.rchild == node && node.parent == lchild
      requires lchild.color == t.l.m && lchild.data == t.l.d && node.color == t.m && node.data == t.d
      requires Rep(t.l.l, lchild.lchild, lchild, sentinel) && Rep(t.l.r, node.lchild, node, sentinel)
      requires Rep(t.r, node.rchild, node, sentinel)
      requires Apart(t.l.l, t.l.r, t.r, node, lchild)
      ensures Linked(c, RotateRight(t), lchild)
    {
      hide CRep;
      assert Rep(t.(l := t.l.r), node, lchild, sentinel);
      RotateRightSame(t);
    }

    method RightRotate(node: Node, ghost c: RCtx, ghost t: RTree)
      requires t.Bin? && t.l.Bin? && Linked(c, t, node)
      modifies this`root, Repr`parent, Repr`lchild, Repr`rchild
      ensures Linked(c, RotateRight(t), t.l.n)
    {
      hide CRep, Nodes;
      OpenRight(c, t, node);
      var parent, lchild := node.parent, node.lchild;
      Hang(parent, node, lchild, c, t.l, t.r, node.rchild);
      assert Rep(t.l.l, lchild.lchild, lchild, sentinel) && Rep(t.l.r, lchild.rchild, lchild, sentinel);
      AdoptRight(node, lchild, c, t.l.l, t.l.r, t.r);
      CloseRight(c, t, node, lchild);
    }

    lemma OpenLeft(c: RCtx, t: RTree, node: Node)
      requires t.Bin? && t.r.Bin? && Linked(c, t, node)
      ensures node == t.n && node.rchild == t.r.n && node.parent == HoleParent(c, sentinel)
      ensures Rep(t.r, node.rchild, node, sentinel) && Rep(t.l, node.lchild, node, sentinel)
      ensures Apart(t.r.r, t.r.l, t.l, node, t.r.n)
      ensures CNodes(c) !! {node, t.r.n} && CNodes(c) !! Nodes(t.r.l) && CNodes(c) !! Nodes(t.r)
      ensures CNodes(c) !! Nodes(t.l)
      ensures Nodes(t.r) !! Nodes(t.l) && Nodes(t.r.l) <= Repr && {node, t.r.n} <= Repr
      ensures Nodes(t.r.r) <= Repr && Nodes(t.l) <= Repr && CNodes(c) <= Repr
      ensures sentinel !in Nodes(t.r.l) && sentinel !in Nodes(t.r)
    {
      hide CRep;
      assert Rep(t.r, node.rchild, node, sentinel);
    }

    lemma CloseLeft(c: RCtx, t: RTree, node: Node, rchild: Node)
      requires t.Bin? && t.r.Bin? && node == t.n && rchild == t.r.n
      requires CNodes(c) <= Repr && Nodes(t) <= Repr && sentinel !in Repr && CNodes(c) !! Nodes(t)
      requires CRep(c, root, rchild, sentinel) && rchild.parent == HoleParent(c, sentinel)
      requires rchild.lchild == node && node.parent == rchild
      requires rchild.color == t.r.m && rchild.data == t.r.d && node.color == t.m && node.data == t.d
      requires Rep(t.r.r, rchild.rchild, rchild, sentinel) && Rep(t.r.l, node.rchild, node, sentinel)
      requires Rep(t.l, node.lchild, node, sentinel)
      requires Apart(t.r.r, t.r.l, t.l, node, rchild)
      ensures Linked(c, RotateLeft(t), rchild)
    {
      hide CRep;
      assert Rep(t.(r := t.r.l), node, rchild, sentinel);
      RotateLeftSame(t);
    }

    method LeftRotate(node: Node, ghost c: RCtx, ghost t: RTree)
      requires t.Bin? && t.r.Bin? && Linked(c, t, node)
      modifies this`root, Repr`parent, Repr`lchild, Repr`rchild
      ensures Linked(c, RotateLeft(t), t.r.n)
    {
      hide CRep, Nodes;
      OpenLeft(c, t, node);
      var parent, rchild := node.parent, node.rchild;
      Hang(parent, node, rchild, c, t.r, t.l, node.lchild);
      assert Rep(t.r.r, rchild.rchild, rchild, sentinel) && Rep(t.r.l, rchild.lchild, rchild, sentinel);
      AdoptLeft(node, rchild, c, t.l, t.r.l, t.r.r);
      CloseLeft(c, t, node, rchild);
    }

    lemma {:induction false} Root(c: RCtx, t: RTree, x: Node?)
      requires Linked(c, t, x)
      ensures Linked(Top, Plug(c, t), root)
      decreases c
    {
      hide Rep;
      if !c.Top? {
        Up(c, t, x);
        Root(c.up, Join(c, t), c.n);
      }
    }

    constructor (cmp: Order)
      ensures Shape == Leaf && Repr == {} && Linked(Top, Leaf, root) && this.cmp == cmp
      ensures num == 0 && sentinel.color == Black && fresh(sentinel)
    {
      this.cmp := cmp;
      var nil := new Node(Black);
      sentinel := nil;
      root := nil;
      num := 0;
      Repr := {};
      Shape := Leaf;
    }

    // ----- insertion

    /** Case 1 on either side: parent and uncle turn black, the grandparent red unless it is the root. */
    method Recolor(parent: Node, uncle: Node, grandpa: Node, ghost c: RCtx, ghost t: RTree)
      requires t.Bin? && Linked(c, t, t.n) && Grand(c) && Uncle(c).Bin?
      requires parent == c.n && grandpa == c.up.n
      requires uncle == if c.up.InL? then grandpa.rchild else grandpa.lchild
      requires c.up.m.Black?
      modifies Repr`color
      ensures Linked(c.up.up, Recolored(c, t, if c.up.up.Top? then Black else Red), grandpa)
    {
      hide CRep, Rep;
      Up(c, t, t.n);
      SetColor(parent, Black, c.up, Join(c, t));
      ghost var p := Mark(Join(c, t), Black);
      ghost var c' := Across(c.up, p, parent);
      SetColor(uncle, Black, c', Uncle(c));
      ghost var u := Mark(Uncle(c), Black);
      Up(c', u, uncle);
      IsTop(c.up.up, Join(c', u), grandpa);
      if grandpa != root {
        SetColor(grandpa, Red, c.up.up, Join(c', u));
      }
    }

    /** Case 2, and its mirror image: an outer grandchild, below a black uncle. */
    method RotateOuter(parent: Node, grandpa: Node, ghost c: RCtx, ghost t: RTree)
      requires t.Bin? && Linked(c, t, t.n) && Grand(c) && parent == c.n && grandpa == c.up.n
      requires c.InL? <==> c.up.InL?
      requires parent == grandpa.lchild <==> c.up.InL?
      modifies this`root, Repr`color, Repr`parent, Repr`lchild, Repr`rchild
      ensures Linked(c.up.up, Rotated(c, t), parent)
    {
      hide CRep, Rep;
      Up(c, t, t.n);
      SetColor(parent, Black, c.up, Join(c, t));
      ghost var p := Mark(Join(c, t), Black);
      Up(c.up, p, parent);
      SetColor(grandpa, Red, c.up.up, Join(c.up, p));
      ghost var g := Mark(Join(c.up, p), Red);
      if parent == grandpa.lchild {
        RightRotate(grandpa, c.up.up, g);
      } else {
        LeftRotate(grandpa, c.up.up, g);
      }
    }

    /** The grandparent of a red node below a red parent, and which side the parent is on. */
    lemma PeekGrand(c: RCtx, t: RTree)
      requires t.Bin? && Linked(c, t, t.n) && Grand(c)
      ensures t.n.parent == c.n && c.n.parent == c.up.n && c.n.color == c.m
      ensures c.up.n.lchild != null && c.up.n.rchild != null
      ensures c.up.n.lchild == c.n <==> c.up.InL?
      ensures c.n.lchild == t.n <==> c.InL?
      ensures var u := if c.up.InL? then c.up.n.rchild else c.up.n.lchild;
              (u == sentinel <==> Uncle(c).Leaf?) && (Uncle(c).Bin? ==> u.color == Uncle(c).m)
    {
      hide CRep, Rep;
      Peek(c, t, t.n);
      Side(c, t, t.n);
      Up(c, t, t.n);
      Peek(c.up, Join(c, t), c.n);
      Side(c.up, Join(c, t), c.n);
      var c' := Across(c.up, Join(c, t), c.n);
      Peek(c', Uncle(c), if c.up.InL? then c.up.n.rchild else c.up.n.lchild);
      Up(c.up, Join(c, t), c.n);
      Peek(c.up.up, Join(c.up, Join(c, t)), c.up.n);
    }

    /** The walk goes on from the parent of the rotated subtree, or ends at the sentinel. */
    lemma AfterRotation(c: RCtx, t: RTree, x: Node) returns (c': RCtx, t': RTree)
      requires Repairing(c, t) && IsRed(t) && Grand(c)
      requires Linked(c.up.up, Rotated(c, t), x)
      requires Repairing(c.up.up, Rotated(c, t)) && !IsRed(Rotated(c, t))
      ensures Repairing(c', t') && Linked(c', t', t'.n)
      ensures Plug(c', t') == Plug(c.up.up, Rotated(c, t)) && Depth(c') < Depth(c)
      ensures var n := HoleParent(c.up.up, sentinel); t'.n == n || (n == sentinel && c'.Top? && !IsRed(t'))
    {
      GrandUp(c, t);
      Peek(c.up.up, Rotated(c, t), x);
      c', t' := c.up.up, Rotated(c, t);
      if !c'.Top? {
        RepairedUp(c', t');
        Up(c', t', x);
        c', t' := c'.up, Join(c', t');
      }
    }

    /** The state between two passes of the repair after an insertion. */
    ghost predicate Fixing(node: Node, c: RCtx, t: RTree)
      reads this, sentinel, CNodes(c), Nodes(t)
    {
      && sentinel.color == Black && Repairing(c, t) && Linked(c, t, t.n)
      && (node == t.n || (node == sentinel && c.Top? && !IsRed(t)))
    }

    /** One pass of the repair when the parent is a left child: the new focus is strictly higher,
        or as high and no longer an inner grandchild. */
    method FixupLeft(node: Node, parent: Node, grandpa: Node, ghost c: RCtx, ghost t: RTree)
      returns (node': Node, ghost c': RCtx, ghost t': RTree)
      requires Fixing(node, c, t) && IsRed(t) && Grand(c) && c.m.Red? && c.up.m.Black? && c.up.InL?
      requires node == t.n && parent == c.n && grandpa == c.up.n
      modifies this`root, Repr`color, Repr`parent, Repr`lchild, Repr`rchild
      ensures Fixing(node', c', t') && InOrder(Plug(c', t')) == InOrder(Plug(c, t))
      ensures Depth(c') < Depth(c) || (Depth(c') == Depth(c) && Inner(c) && !Inner(c'))
    {
      hide CRep, Rep, Colored, BlackHeight, Fits, Plug, InOrder;
      PeekGrand(c, t);
      GrandUp(c, t);
      Up(c, t, node);
      Up(c.up, Join(c, t), parent);
      Peek(c.up.up, Join(c.up, Join(c, t)), grandpa);
      var uncle := grandpa.rchild;
      if uncle.color == Red {
        Recolor(parent, uncle, grandpa, c, t);
        RecolorRepairs(c, t);
        c', t' := c.up.up, Recolored(c, t, if c.up.up.Top? then Black else Red);
        node' := grandpa;
      } else if node == parent.lchild {
        var gparent := grandpa.parent;
        RotateOuter(parent, grandpa, c, t);
        RotateRepairs(c, t);
        c', t' := AfterRotation(c, t, parent);
        node' := gparent;
      } else {
        LeftRotate(parent, c.up, Join(c, t));
        InnerRepairs(c, t);
        DownL(c.up, RotateLeft(Join(c, t)), node);
        c', t' := InL(t.n, Red, t.d, t.r, c.up), Bin(c.n, Red, c.d, c.l, t.l);
        Peek(c', t', node.lchild);
        node' := parent;
      }
    }

    /** The mirror image of `FixupLeft`. */
    method FixupRight(node: Node, parent: Node, grandpa: Node, ghost c: RCtx, ghost t: RTree)
      returns (node': Node, ghost c': RCtx, ghost t': RTree)
      requires Fixing(node, c, t) && IsRed(t) && Grand(c) && c.m.Red? && c.up.m.Black? && c.up.InR?
      requires node == t.n && parent == c.n && grandpa == c.up.n
      modifies this`root, Repr`color, Repr`parent, Repr`lchild, Repr`rchild
      ensures Fixing(node', c', t') && InOrder(Plug(c', t')) == InOrder(Plug(c, t))
      ensures Depth(c') < Depth(c) || (Depth(c') == Depth(c) && Inner(c) && !Inner(c'))
    {
      hide CRep, Rep, Colored, BlackHeight, Fits, Plug, InOrder;
      PeekGrand(c, t);
      GrandUp(c, t);
      Up(c, t, node);
      Up(c.up, Join(c, t), parent);
      Peek(c.up.up, Join(c.up, Join(c, t)), grandpa);
      var uncle := grandpa.lchild;
      if uncle.color == Red {
        Recolor(parent, uncle, grandpa, c, t);
        RecolorRepairs(c, t);
        c', t' := c.up.up, Recolored(c, t, if c.up.up.Top? then Black else Red);
        node' := grandpa;
      } else if node == parent.lchild {
        RightRotate(parent, c.up, Join(c, t));
        InnerRepairs(c, t);
        DownR(c.up, RotateRight(Join(c, t)), node);
        c', t' := InR(t.n, Red, t.d, t.l, c.up), Bin(c.n, Red, c.d, t.r, c.r);
        Peek(c', t', node.rchild);
        node' := parent;
      } else {
        var gparent := grandpa.parent;
        RotateOuter(parent, grandpa, c, t);
        RotateRepairs(c, t);
        c', t' := AfterRotation(c, t, parent);
        node' := gparent;
      }
    }

    /** Restores the colour rules after `node`, the root of `t`, was put in red below `c`. */
    method InsertFixup(node: Node, ghost c: RCtx, ghost t: RTree)
      requires Fixing(node, c, t)
      modifies this`root, this`Shape, Repr`color, Repr`parent, Repr`lchild, Repr`rchild
      ensures Linked(Top, Shape, root) && RedBlack(Shape) && sentinel.color == Black
      ensures InOrder(Shape) == InOrder(Plug(c, t))
    {
      hide CRep, Rep, Colored, BlackHeight, Fits, Plug, InOrder;
      var node := node;
      ghost var c, t := c, t;
      ghost var whole := InOrder(Plug(c, t));
      while node.color == Red
        invariant Fixing(node, c, t) && InOrder(Plug(c, t)) == whole
        decreases Depth(c), Inner(c)
      {
        Peek(c, t, t.n);
        RedParent(c, t);
        Up(c, t, node);
        Peek(c.up, Join(c, t), c.n);
        var parent := node.parent;
        if parent.color == Black {
          Root(c, t, t.n);
          Shape := Plug(c, t);
          return;
        }
        PeekGrand(c, t);
        var grandpa := parent.parent;
        if parent == grandpa.lchild {
          node, c, t := FixupLeft(node, parent, grandpa, c, t);
        } else {
          node, c, t := FixupRight(node, parent, grandpa, c, t);
        }
      }
      Peek(c, t, t.n);
      RepairedUp(c, t);
      Root(c, t, t.n);
      Shape := Plug(c, t);
    }

    // ----- deletion

    /** Strictly decreases over the passes; a red root ends them. */
    ghost function Rank(c: RCtx, t: RTree): nat {
      if IsRed(t) then 0 else Depth(c)
    }

    method Blacken(node: Node, ghost c: RCtx, ghost t: RTree)
      requires Linked(c, t, node) && sentinel.color == Black
      modifies sentinel`color, Repr`color
      ensures sentinel.color == Black
      ensures Linked(Top, if t.Bin? then Plug(c, Mark(t, Black)) else Plug(c, t), root)
    {
      Peek(c, t, node);
      node.color := Black;
      Root(c, if t.Bin? then Mark(t, Black) else t, node);
    }

    /** The state between two passes of the repair after a deletion. */
    ghost predicate Unfinished(node: Node, c: RCtx, t: RTree)
      reads this, sentinel, CNodes(c), Nodes(t)
    {
      && Short(c, t) && Linked(c, t, node) && sentinel.color == Black
      && (t.Leaf? ==> sentinel.parent == HoleParent(c, sentinel))
    }

    /** Everything a pass reads around the brother of `node`. */
    lemma PeekBrother(c: RCtx, t: RTree, node: Node)
      requires Unfinished(node, c, t) && !c.Top?
      ensures node.parent == c.n && c.n.color == c.m && c.n.lchild != null && c.n.rchild != null
      ensures c.n.lchild == node <==> c.InL?
      ensures Brother(c).Bin? && Colored(Brother(c)) && BlackHeight(Brother(c)) == BlackHeight(t) + 1
      ensures IsRed(Brother(c)) ==> c.m.Black? && Near(c).Bin? && Near(c).m.Black?
      ensures var b := Brother(c);
              b.n == (if c.InL? then c.n.rchild else c.n.lchild) && b.n.color == b.m
              && b.n.lchild != null && b.n.rchild != null
              && (b.l.Leaf? ==> b.n.lchild == sentinel) && (b.l.Bin? ==> b.n.lchild == b.l.n && b.l.n.color == b.l.m)
              && (b.r.Leaf? ==> b.n.rchild == sentinel) && (b.r.Bin? ==> b.n.rchild == b.r.n && b.r.n.color == b.r.m)
    {
      hide CRep, Rep;
      BrotherIsNode(c, t);
      Peek(c, t, node);
      Side(c, t, node);
      Up(c, t, node);
      Peek(c.up, Join(c, t), c.n);
      var c' := Across(c, t, node);
      var b, x := Brother(c), if c.InL? then c.n.rchild else c.n.lchild;
      Peek(c', b, x);
      DownL(c', b, x);
      DownR(c', b, x);
      Peek(InL(b.n, b.m, b.d, b.r, c'), b.l, x.lchild);
      Peek(InR(b.n, b.m, b.d, b.l, c'), b.r, x.rchild);
    }

    method SetParentColor(parent: Node, color: Color, ghost node: Node, ghost c: RCtx, ghost t: RTree)
      requires !c.Top? && Linked(c, t, node) && parent == c.n
      modifies Repr`color
      ensures Linked(CMark(c, color), t, node)
    {
      hide CRep, Rep;
      Up(c, t, node);
      Peek(c, t, node);
      SetColor(parent, color, c.up, Join(c, t));
      Back(CMark(c, color), t);
    }

    method SetBrotherColor(brother: Node, color: Color, ghost node: Node, ghost c: RCtx, ghost t: RTree)
      requires !c.Top? && Linked(c, t, node) && Brother(c).Bin? && brother == Brother(c).n
      modifies Repr`color
      ensures Linked(WithBrother(c, Mark(Brother(c), color)), t, node)
    {
      hide CRep, Rep;
      Peek(c, t, node);
      ghost var c' := Across(c, t, node);
      Peek(c', Brother(c), if c.InL? then c.n.rchild else c.n.lchild);
      SetColor(brother, color, c', Brother(c));
      Up(c', Mark(Brother(c), color), brother);
      Back(WithBrother(c, Mark(Brother(c), color)), t);
    }

    /** Case 1 and Case 5: a red brother is rotated above the parent of `node`. */
    method RaiseBrother(node: Node, parent: Node, brother: Node, ghost c: RCtx, ghost t: RTree)
      returns (ghost c': RCtx)
      requires Unfinished(node, c, t) && !c.Top? && IsRed(Brother(c))
      requires parent == c.n && brother == Brother(c).n && (parent.lchild == node <==> c.InL?)
      modifies this`root, Repr`color, Repr`parent, Repr`lchild, Repr`rchild
      ensures Unfinished(node, c', t) && c' == BelowBrother(c)
      ensures InOrder(Plug(c', t)) == InOrder(Plug(c, t)) && c'.m.Red? && !IsRed(Brother(c'))
    {
      hide CRep, Rep;
      RedBrotherRotates(c, t);
      Peek(c, t, node);
      c' := BelowBrother(c);
      SetParentColor(parent, Red, node, c, t);
      SetBrotherColor(brother, Black, node, CMark(c, Red), t);
      ghost var c1 := WithBrother(CMark(c, Red), Mark(Brother(c), Black));
      Up(c1, t, node);
      if node == parent.lchild {
        LeftRotate(parent, c.up, Join(c1, t));
      } else {
        RightRotate(parent, c.up, Join(c1, t));
      }
      Back(c'.up, Join(c', t));
      Back(c', t);
    }

    /** Case 2 and Case 6: the brother turns red, and the parent misses a black node instead. */
    method ReddenBrother(node: Node, parent: Node, brother: Node, ghost c: RCtx, ghost t: RTree)
      returns (ghost c': RCtx, ghost t': RTree)
      requires Unfinished(node, c, t) && !IsRed(t) && !c.Top? && !IsRed(Brother(c)) && Brother(c).Bin?
      requires !IsRed(Near(c)) && !IsRed(Far(c))
      requires parent == c.n && brother == Brother(c).n
      modifies Repr`color
      ensures Unfinished(parent, c', t') && InOrder(Plug(c', t')) == InOrder(Plug(c, t))
      ensures c' == c.up && t'.Bin? && t'.m == c.m
    {
      hide CRep, Rep;
      BlackBrotherReddens(c, t);
      SetBrotherColor(brother, Red, node, c, t);
      ghost var c1 := WithBrother(c, Mark(Brother(c), Red));
      Up(c1, t, node);
      c', t' := c.up, Join(c1, t);
    }

    /** Case 3 and Case 7: the brother's near child is red and is rotated above the brother. */
    method RotateNear(node: Node, parent: Node, brother: Node, ghost c: RCtx, ghost t: RTree)
      returns (ghost c': RCtx)
      requires Unfinished(node, c, t) && !c.Top? && !IsRed(Brother(c)) && Brother(c).Bin?
      requires IsRed(Near(c)) && !IsRed(Far(c))
      requires parent == c.n && brother == Brother(c).n && (parent.lchild == node <==> c.InL?)
      requires Near(c).n == if c.InL? then brother.lchild else brother.rchild
      modifies this`root, Repr`color, Repr`parent, Repr`lchild, Repr`rchild
      ensures Unfinished(node, c', t) && c' == WithBrother(c, NearRotated(c))
      ensures InOrder(Plug(c', t)) == InOrder(Plug(c, t)) && !IsRed(Brother(c')) && IsRed(Far(c'))
    {
      hide CRep, Rep;
      NearRedRotates(c, t);
      c' := WithBrother(c, NearRotated(c));
      Peek(c, t, node);
      ghost var b := Brother(c);
      ghost var cb := Across(c, t, node);
      Peek(cb, b, if c.InL? then parent.rchild else parent.lchild);
      if node == parent.lchild {
        DownL(cb, b, brother);
        SetParentColor(brother, Red, brother.lchild, InL(b.n, b.m, b.d, b.r, cb), b.l);
        SetColor(brother.lchild, Black, InL(b.n, Red, b.d, b.r, cb), b.l);
        b := Bin(b.n, Red, b.d, Mark(b.l, Black), b.r);
        Up(InL(b.n, b.m, b.d, b.r, cb), b.l, b.l.n);
        RightRotate(brother, cb, b);
      } else {
        DownR(cb, b, brother);
        SetParentColor(brother, Red, brother.rchild, InR(b.n, b.m, b.d, b.l, cb), b.r);
        SetColor(brother.rchild, Black, InR(b.n, Red, b.d, b.l, cb), b.r);
        b := Bin(b.n, Red, b.d, b.l, Mark(b.r, Black));
        Up(InR(b.n, b.m, b.d, b.l, cb), b.r, b.r.n);
        LeftRotate(brother, cb, b);
      }
      Up(cb, NearRotated(c), NearRotated(c).n);
      Back(c', t);
    }

    method BlackenRight(node: Node, ghost c: RCtx, ghost t: RTree)
      requires t.Bin? && t.r.Bin? && Linked(c, t, node)
      modifies Repr`color
      ensures Linked(c, Bin(t.n, t.m, t.d, t.l, Mark(t.r, Black)), node)
    {
      hide CRep, Rep;
      ghost var c' := InR(t.n, t.m, t.d, t.l, c);
      Peek(c, t, node);
      DownR(c, t, node);
      Peek(c', t.r, node.rchild);
      SetColor(node.rchild, Black, c', t.r);
      Up(c', Mark(t.r, Black), node.rchild);
    }

    method BlackenLeft(node: Node, ghost c: RCtx, ghost t: RTree)
      requires t.Bin? && t.l.Bin? && Linked(c, t, node)
      modifies Repr`color
      ensures Linked(c, Bin(t.n, t.m, t.d, Mark(t.l, Black), t.r), node)
    {
      hide CRep, Rep;
      ghost var c' := InL(t.n, t.m, t.d, t.r, c);
      Peek(c, t, node);
      DownL(c, t, node);
      Peek(c', t.l, node.lchild);
      SetColor(node.lchild, Black, c', t.l);
      Up(c', Mark(t.l, Black), node.lchild);
    }

    /** Case 4 and Case 8: the brother's far child is red; one rotation ends the repair. */
    method RotateFar(node: Node, parent: Node, brother: Node, ghost c: RCtx, ghost t: RTree)
      returns (ghost c': RCtx, ghost t': RTree)
      requires Unfinished(node, c, t) && !IsRed(t) && !c.Top? && !IsRed(Brother(c)) && Brother(c).Bin?
      requires IsRed(Far(c)) && parent.color == c.m
      requires parent == c.n && brother == Brother(c).n && (parent.lchild == node <==> c.InL?)
      requires Far(c).n == if c.InL? then brother.rchild else brother.lchild
      modifies this`root, Repr`color, Repr`parent, Repr`lchild, Repr`rchild
      ensures Unfinished(root, c', t') && InOrder(Plug(c', t')) == InOrder(Plug(c, t))
      ensures c'.Top?
    {
      hide CRep, Rep, Colored, BlackHeight, Fits, Short, InOrder;
      FarRedFinishes(c, t);
      Peek(c, t, node);
      ghost var b := Brother(c);
      ghost var cb := Across(c, t, node);
      Peek(cb, b, if c.InL? then parent.rchild else parent.lchild);
      SetColor(brother, parent.color, cb, b);
      b := Mark(b, c.m);
      if node == parent.lchild {
        BlackenRight(brother, cb, b);
        b := Bin(b.n, b.m, b.d, b.l, Mark(b.r, Black));
      } else {
        BlackenLeft(brother, cb, b);
        b := Bin(b.n, b.m, b.d, Mark(b.l, Black), b.r);
      }
      SetParentColor(parent, Black, brother, cb, b);
      Up(CMark(cb, Black), b, brother);
      if node == parent.lchild {
        LeftRotate(parent, c.up, Join(CMark(cb, Black), b));
      } else {
        RightRotate(parent, c.up, Join(CMark(cb, Black), b));
      }
      Root(c.up, FarRotated(c, t), FarRotated(c, t).n);
      c', t' := Top, Plug(c.up, FarRotated(c, t));
      PlugBin(c.up, FarRotated(c, t));
      Peek(c', t', root);
    }

    /** One pass of the repair when `node` is a left child. */
    method UnshortLeft(node: Node, parent: Node, ghost c: RCtx, ghost t: RTree)
      returns (node': Node, ghost c': RCtx, ghost t': RTree)
      requires Unfinished(node, c, t) && !IsRed(t) && c.InL? && parent == c.n
      modifies this`root, Repr`color, Repr`parent, Repr`lchild, Repr`rchild
      ensures Unfinished(node', c', t') && InOrder(Plug(c', t')) == InOrder(Plug(c, t))
      ensures Rank(c', t') < Depth(c)
    {
      hide CRep, Rep, Colored, BlackHeight, Fits, Short, NearRotated, Plug, InOrder;
      ghost var c1 := c;
      PeekBrother(c, t, node);
      var brother := parent.rchild;
      if brother.color == Red {
        c1 := RaiseBrother(node, parent, brother, c, t);
        PeekBrother(c1, t, node);
        brother := parent.rchild;
      }
      if brother.lchild.color == Black && brother.rchild.color == Black {
        c', t' := ReddenBrother(node, parent, brother, c1, t);
        node' := parent;
      } else {
        if brother.rchild.color == Black {
          c1 := RotateNear(node, parent, brother, c1, t);
          PeekBrother(c1, t, node);
          brother := parent.rchild;
        }
        c', t' := RotateFar(node, parent, brother, c1, t);
        node' := root;
      }
    }

    /** The mirror image of `UnshortLeft`. */
    method UnshortRight(node: Node, parent: Node, ghost c: RCtx, ghost t: RTree)
      returns (node': Node, ghost c': RCtx, ghost t': RTree)
      requires Unfinished(node, c, t) && !IsRed(t) && c.InR? && parent == c.n
      modifies this`root, Repr`color, Repr`parent, Repr`lchild, Repr`rchild
      ensures Unfinished(node', c', t') && InOrder(Plug(c', t')) == InOrder(Plug(c, t))
      ensures Rank(c', t') < Depth(c)
    {
      hide CRep, Rep, Colored, BlackHeight, Fits, Short, NearRotated, Plug, InOrder;
      ghost var c1 := c;
      PeekBrother(c, t, node);
      var brother := parent.lchild;
      if brother.color == Red {
        c1 := RaiseBrother(node, parent, brother, c, t);
        PeekBrother(c1, t, node);
        brother := parent.lchild;
      }
      if brother.lchild.color == Black && brother.rchild.color == Black {
        c', t' := ReddenBrother(node, parent, brother, c1, t);
        node' := parent;
      } else {
        if brother.lchild.color == Black {
          c1 := RotateNear(node, parent, brother, c1, t);
          PeekBrother(c1, t, node);
          brother := parent.lchild;
        }
        c', t' := RotateFar(node, parent, brother, c1, t);
        node' := root;
      }
    }

    /** Restores the colour rules after a black node was unlinked above `node`. */
    method DeleteFixup(node: Node, ghost c: RCtx, ghost t: RTree)
      requires Unfinished(node, c, t)
      modifies this`root, this`Shape, sentinel`color, Repr`color, Repr`parent, Repr`lchild, Repr`rchild
      ensures Linked(Top, Shape, root) && RedBlack(Shape) && sentinel.color == Black
      ensures InOrder(Shape) == InOrder(Plug(c, t))
    {
      hide CRep, Rep, Colored, BlackHeight, Fits, Short, Plug, InOrder;
      var node := node;
      ghost var c, t := c, t;
      ghost var whole := InOrder(Plug(c, t));
      while node.color == Black && root != node
        invariant Unfinished(node, c, t) && InOrder(Plug(c, t)) == whole
        decreases Rank(c, t)
      {
        Peek(c, t, node);
        IsTop(c, t, node);
        PeekBrother(c, t, node);
        var parent := node.parent;
        if node == parent.lchild {
          node, c, t := UnshortLeft(node, parent, c, t);
        } else {
          node, c, t := UnshortRight(node, parent, c, t);
        }
      }
      Peek(c, t, node);
      IsTop(c, t, node);
      ShortEnds(c, t);
      Blacken(node, c, t);
      Shape := if t.Bin? then Plug(c, Mark(t, Black)) else Plug(c, t);
    }

    lemma {:induction false} UpAll(inner: RCtx, outer: RCtx, t: RTree, x: Node?)
      requires Linked(Append(inner, outer), t, x)
      ensures Linked(outer, Plug(inner, t), RootOf(Plug(inner, t), sentinel))
      decreases inner
    {
      hide CRep, Rep;
      Peek(Append(inner, outer), t, x);
      if !inner.Top? {
        Up(Append(inner, outer), t, x);
        UpAll(inner.up, outer, Join(inner, t), inner.n);
      }
    }

    lemma {:induction false} DownAll(inner: RCtx, outer: RCtx, t: RTree)
      requires Linked(outer, Plug(inner, t), RootOf(Plug(inner, t), sentinel))
      ensures Linked(Append(inner, outer), t, RootOf(t, sentinel))
      decreases inner
    {
      hide CRep, Rep;
      if !inner.Top? {
        DownAll(inner.up, outer, Join(inner, t));
        Back(Append(inner, outer), t);
      }
    }

    method SetData(node: Node, data: Data, ghost c: RCtx, ghost t: RTree)
      requires t.Bin? && Linked(c, t, node)
      modifies Repr`data
      ensures Linked(c, t.(d := data), node)
    {
      node.data := data;
    }

    /** Cuts `dnode` out of the tree: its only subtree `s`, at `refer`, takes its place. */
    method Splice(dnode: Node, refer: Node, ghost c: RCtx, ghost t: RTree, ghost s: RTree)
      requires t.Bin? && Linked(c, t, dnode)
      requires (t.l.Leaf? && s == t.r && refer == dnode.rchild) || (t.r.Leaf? && s == t.l && refer == dnode.lchild)
      modifies this`root, this`Repr, sentinel`parent, Repr`parent, Repr`lchild, Repr`rchild
      ensures Linked(c, s, refer) && refer.parent == HoleParent(c, sentinel)
      ensures Repr == old(Repr) - {dnode}
    {
      assert Rep(s, refer, dnode, sentinel);
      Hang(dnode.parent, dnode, refer, c, s, Leaf, sentinel);
      Repr := Repr - {dnode};
    }

    /** Cuts out a node with at most one child, and restores the colour rules if it was black. */
    method RemoveSingle(dnode: Node, refer: Node, ghost c: RCtx, ghost t: RTree, ghost s: RTree)
      requires t.Bin? && Linked(c, t, dnode) && sentinel.color == Black
      requires (t.l.Leaf? && s == t.r && refer == dnode.rchild) || (t.r.Leaf? && s == t.l && refer == dnode.lchild)
      requires Colored(t) && Fits(c, BlackHeight(t), IsRed(t))
      modifies this`root, this`Repr, this`Shape, sentinel`color, sentinel`parent
      modifies Repr`color, Repr`parent, Repr`lchild, Repr`rchild
      ensures Linked(Top, Shape, root) && RedBlack(Shape) && sentinel.color == Black
      ensures Repr == old(Repr) - {dnode} && InOrder(Shape) == InOrder(Plug(c, s))
    {
      hide CRep, Rep, Colored, BlackHeight, Fits, Short, Plug, InOrder;
      Spliced(c, t, s);
      Peek(c, t, dnode);
      Splice(dnode, refer, c, t, s);
      if dnode.color == Red {
        Root(c, s, refer);
        Shape := Plug(c, s);
        return;
      }
      DeleteFixup(refer, c, s);
    }

    /** The node after `dnode` in order: the leftmost one of its right subtree. */
    method Next(dnode: Node, ghost c: RCtx, ghost t: RTree) returns (next: Node, ghost inner: RCtx, ghost sub: RTree)
      requires t.Bin? && t.r.Bin? && Linked(c, t, dnode)
      ensures Plug(inner, sub) == t.r && Leftmost(inner) && sub.Bin? && sub.l.Leaf?
      ensures Linked(Append(inner, InR(t.n, t.m, t.d, t.l, c)), sub, next)
    {
      hide CRep, Rep;
      Peek(c, t, dnode);
      DownR(c, t, dnode);
      next := dnode.rchild;
      inner, sub := Top, t.r;
      ghost var outer := InR(t.n, t.m, t.d, t.l, c);
      Peek(outer, sub, next);
      while sentinel != next.lchild
        invariant Plug(inner, sub) == t.r && Leftmost(inner) && sub.Bin?
        invariant Linked(Append(inner, outer), sub, next)
        decreases Height(sub)
      {
        Peek(Append(inner, outer), sub, next);
        DownL(Append(inner, outer), sub, next);
        inner, sub := InL(sub.n, sub.m, sub.d, sub.r, inner), sub.l;
        next := next.lchild;
      }
      Peek(Append(inner, outer), sub, next);
    }

    /** The data of `next`, already cut out, moves up into `dnode`. */
    method MoveData(dnode: Node, next: Node, refer: Node, ghost c: RCtx, ghost t: RTree, ghost inner: RCtx,
        ghost s: RTree)
      requires t.Bin? && dnode == t.n
      requires Linked(Append(inner, InR(t.n, t.m, t.d, t.l, c)), s, refer) && next !in Repr
      modifies Repr`data
      ensures Linked(Append(inner, InR(t.n, t.m, next.data, t.l, c)), s, refer)
    {
      hide CRep, Rep;
      ghost var outer, outer' := InR(t.n, t.m, t.d, t.l, c), InR(t.n, t.m, next.data, t.l, c);
      Peek(Append(inner, outer), s, refer);
      UpAll(inner, outer, s, refer);
      Up(outer, Plug(inner, s), RootOf(Plug(inner, s), sentinel));
      SetData(dnode, next.data, c, Join(outer, Plug(inner, s)));
      Back(outer', Plug(inner, s));
      DownAll(inner, outer', s);
    }

    lemma SameHole(inner: RCtx, outer: RCtx, outer': RCtx)
      requires outer.InR? && outer'.InR? && outer.n == outer'.n
      ensures HoleParent(Append(inner, outer), sentinel) == HoleParent(Append(inner, outer'), sentinel)
    {
    }

    /** Removes the data of a node with two children: the successor's node is the one cut out. */
    method RemoveDouble(dnode: Node, ghost c: RCtx, ghost t: RTree)
      requires t.Bin? && t.l.Bin? && t.r.Bin? && Linked(c, t, dnode) && sentinel.color == Black
      requires RedBlack(Plug(c, t))
      modifies this`root, this`Repr, this`Shape, sentinel`color, sentinel`parent, Repr
      ensures Linked(Top, Shape, root) && RedBlack(Shape) && sentinel.color == Black
      ensures Repr <= old(Repr) && InOrder(Shape) == Without(c, t)
    {
      hide CRep, Rep, Colored, BlackHeight, Fits, Short, Plug, InOrder, Append, Nodes, CNodes, Without;
      Peek(c, t, dnode);
      ghost var outer, inner, sub := InR(t.n, t.m, t.d, t.l, c), Top, t.r;
      var next;
      next, inner, sub := Next(dnode, c, t);
      Peek(Append(inner, outer), sub, next);
      var refer := next.rchild;
      SuccessorFits(c, t, inner, sub);
      Splice(next, refer, Append(inner, outer), sub, sub.r);
      MoveData(dnode, next, refer, c, t, inner, sub.r);
      SuccessorMoves(c, t, inner, sub);
      SameHole(inner, outer, InR(t.n, t.m, sub.d, t.l, c));
      outer := InR(t.n, t.m, sub.d, t.l, c);
      if next.color == Red {
        Root(Append(inner, outer), sub.r, refer);
        Shape := Plug(Append(inner, outer), sub.r);
        return;
      }
      DeleteFixup(refer, Append(inner, outer), sub.r);
    }

    /** _rbt_delete. */
    method DeleteNode(dnode: Node, ghost c: RCtx, ghost t: RTree)
      requires t.Bin? && Linked(c, t, dnode) && sentinel.color == Black && RedBlack(Plug(c, t))
      modifies this`root, this`Repr, this`Shape, sentinel`color, sentinel`parent, Repr
      ensures Linked(Top, Shape, root) && RedBlack(Shape) && sentinel.color == Black
      ensures Repr <= old(Repr) && InOrder(Shape) == Without(c, t)
    {
      hide CRep, Rep, Colored, BlackHeight, Fits, Short, Plug, InOrder;
      Peek(c, t, dnode);
      PlugColored(c, t);
      if sentinel == dnode.lchild {
        RemoveSingle(dnode, dnode.rchild, c, t, t.r);
        OnlySide(c, t, t.r);
      } else if sentinel == dnode.rchild {
        RemoveSingle(dnode, dnode.lchild, c, t, t.l);
        OnlySide(c, t, t.l);
      } else {
        RemoveDouble(dnode, c, t);
      }
    }

    // ----- the interface

    ghost predicate Valid()
      reads this, sentinel, Nodes(Shape)
    {
      && Linked(Top, Shape, root) && RedBlack(Shape) && sentinel.color == Black
      && Preorder(cmp) && Sorted(InOrder(Shape), cmp) && num == |InOrder(Shape)|
    }

    /** The stored data blocks. */
    ghost function Contents(): set<Data>
      reads this
    {
      Items(InOrder(Shape))
    }

    method AddLeaf(parent: Node, left: bool, data: Data, ghost c: RCtx) returns (add: Node)
      requires !c.Top? && Linked(c, Leaf, sentinel) && parent == c.n && (left <==> c.InL?)
      modifies this`Repr, parent`lchild, parent`rchild
      ensures fresh(add) && Repr == old(Repr) + {add}
      ensures Linked(c, Bin(add, Red, data, Leaf, Leaf), add)
    {
      add := new Node(Red);
      add.lchild := sentinel;
      add.rchild := sentinel;
      if left {
        parent.lchild := add;
      } else {
        parent.rchild := add;
      }
      add.parent := parent;
      add.data := data;
      Repr := Repr + {add};
    }

    /** A new red leaf below `parent`, and the colour rules restored. */
    method InsertBelow(parent: Node, left: bool, data: Data, ghost c: RCtx)
      requires !c.Top? && Linked(c, Leaf, sentinel) && parent == c.n && (left <==> c.InL?)
      requires RedBlack(Plug(c, Leaf)) && sentinel.color == Black
      requires Preorder(cmp) && Sorted(Pre(c) + Post(c), cmp) && Around(c, data, cmp)
      requires num == |Pre(c) + Post(c)|
      modifies this, Repr
      ensures Valid() && sentinel == old(sentinel) && fresh(Repr - old(Repr))
      ensures Contents() == Items(Pre(c) + Post(c)) + {data} && num == old(num) + 1
    {
      hide CRep, Rep, Preorder;
      var add := AddLeaf(parent, left, data, c);
      num := num + 1;
      ghost var t := Bin(add, Red, data, Leaf, Leaf);
      PlugColored(c, Leaf);
      PlugInOrder(c, t);
      Inserted(Pre(c), data, Post(c), cmp);
      assert InOrder(t) == [data];
      InsertFixup(add, c, t);
    }

    method InsertFirst(data: Data)
      requires Valid() && root == sentinel
      modifies this
      ensures Valid() && sentinel == old(sentinel) && fresh(Repr - old(Repr))
      ensures old(Contents()) == {} && Contents() == {data} && num == old(num) + 1
    {
      Peek(Top, Shape, root);
      var node := new Node(Black);
      node.lchild := sentinel;
      node.rchild := sentinel;
      node.parent := sentinel;
      root := node;
      num := num + 1;
      root.data := data;
      Repr := Repr + {node};
      Shape := Bin(node, Black, data, Leaf, Leaf);
      assert InOrder(Shape) == [data];
    }

    lemma IsKey(items: set<Data>, key: Data, d: Data)
      requires d in items && cmp(key, d) == 0
      ensures HasKey(items, key, cmp)
    {
    }

    lemma NoItems(key: Data)
      requires Linked(Top, Shape, root)
      ensures root == sentinel ==> !HasKey(Contents(), key, cmp)
    {
    }

    /** rbt_insert; the allocator is taken not to fail. */
    method Insert(data: Data) returns (r: InsertResult)
      requires Valid()
      modifies this, Repr
      ensures Valid() && fresh(Repr - old(Repr))
      ensures r == if HasKey(old(Contents()), data, cmp) then NodeExist else Ok
      ensures r.Ok? ==> Contents() == old(Contents()) + {data} && num == old(num) + 1
      ensures r.NodeExist? ==> Shape == old(Shape) && Contents() == old(Contents()) && num == old(num)
    {
      hide CRep, Rep, Preorder, Sorted, HasKey, InOrder;
      r := Ok;
      NoItems(data);
      Peek(Top, Shape, root);
      if sentinel == root {
        InsertFirst(data);
        return Ok;
      }
      var node := root;
      ghost var c, t := Top, Shape;
      while sentinel != node
        invariant Linked(c, t, node) && Plug(c, t) == Shape && Around(c, data, cmp)
        invariant t.Bin? && unchanged(this) && unchanged(Repr) && unchanged(sentinel)
        decreases Height(t)
      {
        Peek(c, t, node);
        if cmp(data, node.data) == 0 {
          Found(c, t);
          IsKey(Contents(), data, t.d);
          return NodeExist;
        } else if cmp(data, node.data) < 0 {
          GoLeft(c, t, data, cmp);
          DownL(c, t, node);
          ghost var c' := InL(node, t.m, t.d, t.r, c);
          if sentinel == node.lchild {
            PlugLeaf(c');
            Missing(c', data, cmp);
            InsertBelow(node, true, data, c');
            return Ok;
          }
          c, t := c', t.l;
          node := node.lchild;
        } else {
          GoRight(c, t, data, cmp);
          DownR(c, t, node);
          ghost var c' := InR(node, t.m, t.d, t.l, c);
          if sentinel == node.rchild {
            PlugLeaf(c');
            Missing(c', data, cmp);
            InsertBelow(node, false, data, c');
            return Ok;
          }
          c, t := c', t.r;
          node := node.rchild;
        }
      }
      Peek(c, t, node);
      assert false;
    }

    method Query(key: Data) returns (r: Option<Data>)
      requires Valid()
      ensures r.Some? ==> r.value in Contents() && cmp(key, r.value) == 0
      ensures r.None? ==> !HasKey(Contents(), key, cmp)
    {
      hide CRep, Rep;
      var node := root;
      ghost var c, t := Top, Shape;
      while sentinel != node
        invariant Linked(c, t, node) && Plug(c, t) == Shape && Around(c, key, cmp)
        decreases Height(t)
      {
        Peek(c, t, node);
        if cmp(key, node.data) == 0 {
          Found(c, t);
          return Some(node.data);
        } else if cmp(key, node.data) < 0 {
          GoLeft(c, t, key, cmp);
          DownL(c, t, node);
          c, t := InL(node, t.m, t.d, t.r, c), t.l;
          node := node.lchild;
        } else {
          GoRight(c, t, key, cmp);
          DownR(c, t, node);
          c, t := InR(node, t.m, t.d, t.l, c), t.r;
          node := node.rchild;
        }
      }
      Peek(c, t, node);
      Missing(c, key, cmp);
      return None;
    }

    /** rbt_delete. */
    method Delete(key: Data) returns (data: Option<Data>)
      requires Valid()
      modifies this, sentinel, Repr
      ensures Valid() && Repr <= old(Repr)
      ensures data.None? <==> !HasKey(old(Contents()), key, cmp)
      ensures data.Some? ==> data.value in old(Contents()) && cmp(key, data.value) == 0
      ensures data.Some? ==> Contents() == old(Contents()) - {data.value} && num == old(num) - 1
      ensures data.None? ==> Shape == old(Shape) && Contents() == old(Contents()) && num == old(num)
    {
      hide CRep, Rep, Colored, BlackHeight, Fits, Short, InOrder;
      var node := root;
      ghost var c, t := Top, Shape;
      while sentinel != node
        invariant Linked(c, t, node) && Plug(c, t) == Shape && Around(c, key, cmp)
        invariant unchanged(this) && unchanged(Repr) && unchanged(sentinel)
        decreases Height(t)
      {
        Peek(c, t, node);
        if cmp(key, node.data) == 0 {
          Found(c, t);
          WithoutOne(c, t, cmp);
          num := num - 1;
          data := Some(node.data);
          DeleteNode(node, c, t);
          return;
        } else if cmp(key, node.data) < 0 {
          GoLeft(c, t, key, cmp);
          DownL(c, t, node);
          c, t := InL(node, t.m, t.d, t.r, c), t.l;
          node := node.lchild;
        } else {
          GoRight(c, t, key, cmp);
          DownR(c, t, node);
          c, t := InR(node, t.m, t.d, t.l, c), t.r;
          node := node.rchild;
        }
      }
      Peek(c, t, node);
      Missing(c, key, cmp);
      return None;
    }

    // ----- the walk

    /** The walk stands at `node`, the stack holds the nodes above it. */
    ghost predicate Walking(stack: Stack<Node?>, node: Node, c: RCtx, t: RTree)
      reads this, CNodes(c), Nodes(t), stack, stack.base
    {
      && RedBlack(Shape) && |InOrder(Shape)| < 0x1_0000_0000_0000_0000
      && Linked(c, t, node) && t.Bin? && Plug(c, t) == Shape
      && stack.Valid() && stack.nil == null && stack.base.Length == RBT_MAX_DEPTH
      && stack.Elems() == Path(c)
    }

    /** Pushes the path to the leftmost node below `node`. */
    method GoLeftmost(stack: Stack<Node?>, node: Node, ghost c: RCtx, ghost t: RTree)
      returns (node': Node, ghost c': RCtx, ghost t': RTree)
      requires Walking(stack, node, c, t)
      modifies stack, stack.base
      ensures Walking(stack, node', c', t') && t'.l.Leaf? && Pre(c') == Pre(c)
      ensures Before(c') == Before(c) && Height(t') <= Height(t)
    {
      hide CRep, Rep, RedBlack, InOrder;
      node', c', t' := node, c, t;
      Peek(c, t, node);
      while sentinel != node'.lchild
        invariant Walking(stack, node', c', t') && Pre(c') == Pre(c)
        invariant Before(c') == Before(c) && Height(t') <= Height(t)
        decreases Height(t')
      {
        Peek(c', t', node');
        DownL(c', t', node');
        DepthBound(c', t');
        var ok := stack.Push(node');
        c', t' := InL(t'.n, t'.m, t'.d, t'.r, c'), t'.l;
        node' := node'.lchild;
      }
      Peek(c', t', node');
    }

    /** Into the right subtree, with the node on the stack. */
    method GoDownRight(stack: Stack<Node?>, node: Node, ghost c: RCtx, ghost t: RTree)
      returns (node': Node, ghost c': RCtx, ghost t': RTree)
      requires Walking(stack, node, c, t) && node.rchild != sentinel
      modifies stack, stack.base
      ensures c' == InR(t.n, t.m, t.d, t.l, c) && t' == t.r && Walking(stack, node', c', t')
    {
      hide CRep, Rep, RedBlack, InOrder, Pre;
      Peek(c, t, node);
      DepthBound(c, t);
      var ok := stack.Push(node);
      DownR(c, t, node);
      c', t' := InR(t.n, t.m, t.d, t.l, c), t.r;
      var right: Node? := node.rchild;
      Peek(c', t', right);
      node' := right;
    }

    /** The top of the stack is the parent. */
    lemma TopOfPath(c: RCtx)
      ensures |Path(c)| == 0 <==> c.Top?
      ensures !c.Top? ==> Path(c)[|Path(c)| - 1] == c.n && Path(c)[..|Path(c)| - 1] == Path(c.up)
    {
    }

    /** Where a node stands relative to its parent, and whether the parent has a right subtree. */
    lemma PeekParent(c: RCtx, t: RTree, node: Node)
      requires Linked(c, t, node) && t.Bin? && !c.Top?
      ensures node == t.n && c.n.lchild != null && c.n.rchild != null && c.n.data == c.d
      ensures c.n.lchild == node <==> c.InL?
      ensures c.n.rchild == node <==> c.InR?
      ensures c.InL? ==> (c.n.rchild == sentinel <==> c.r.Leaf?)
    {
      hide CRep, Rep;
      Peek(c, t, node);
      Side(c, t, node);
      Up(c, t, node);
      Peek(c.up, Join(c, t), c.n);
      if c.InL? {
        DownR(c.up, Join(c, t), c.n);
        Peek(InR(c.n, c.m, c.d, t, c.up), c.r, c.n.rchild);
        DisjointChildren(c, t, node);
      } else {
        DownR(c.up, Join(c, t), c.n);
        Peek(InR(c.n, c.m, c.d, c.l, c.up), t, c.n.rchild);
      }
    }

    lemma DisjointChildren(c: RCtx, t: RTree, node: Node)
      requires Linked(c, t, node) && t.Bin? && c.InL?
      ensures c.n.rchild != node
    {
      assert Rep(c.r, c.n.rchild, c.n, sentinel);
    }

    /** One node up: the parent comes off the stack. */
    method PopUp(stack: Stack<Node?>, node: Node, ghost c: RCtx, ghost t: RTree) returns (parent: Node)
      requires Walking(stack, node, c, t) && !c.Top?
      modifies stack
      ensures parent == c.n && Walking(stack, parent, c.up, Join(c, t))
    {
      hide CRep, Rep, InOrder, RedBlack, Path;
      TopOfPath(c);
      Up(c, t, node);
      var top := stack.Pop();
      parent := top;
    }

    /** Leaves the subtrees that are walked to the end.  The second test also leaves a parent without
        a right subtree, which was not visited if `node` is its left child: the colour rules exclude it. */
    method Climb(stack: Stack<Node?>, node: Node, parent: Node, ghost c: RCtx, ghost t: RTree)
      returns (node': Node, parent': Node?, ghost c': RCtx, ghost t': RTree)
      requires Walking(stack, node, c, t) && !c.Top? && parent == c.n && (c.InR? || Height(t) >= 2)
      modifies stack
      ensures Walking(stack, node', c', t') && Pre(c') + InOrder(t') == Pre(c) + InOrder(t)
      ensures if parent' == null then c'.Top? else !c'.Top? && parent' == c'.n && c'.InL? && c'.r.Bin?
    {
      hide CRep, Rep, InOrder, Pre, RedBlack, Plug, Path, Depth, Height;
      node', parent', c', t' := node, parent, c, t;
      PeekParent(c', t', node');
      while node' == parent'.rchild || sentinel == parent'.rchild
        invariant Walking(stack, node', c', t') && Pre(c') + InOrder(t') == Pre(c) + InOrder(t)
        invariant parent' != null && !c'.Top? && parent' == c'.n && (c'.InR? || Height(t') >= 2)
        decreases Depth(c')
      {
        PeekParent(c', t', node');
        if c'.InL? {
          Shallow(c', t');
          assert false;
        }
        WalkedUp(c', t');
        node' := PopUp(stack, node', c', t');
        c', t' := c'.up, Join(c', t');
        TopOfPath(c');
        parent' := stack.GetTop();
        if parent' == null {
          return;
        }
      }
      PeekParent(c', t', node');
    }

    /** The left subtree at `node` and its parent are walked: on to the parent's right subtree. */
    lemma EnterRight(stack: Stack<Node?>, node: Node, c: RCtx, t: RTree) returns (c': RCtx)
      requires Walking(stack, node, c, t) && c.InL? && c.r.Bin?
      ensures c.n.rchild != null && Walking(stack, c.n.rchild, c', c.r)
      ensures Pre(c') == Pre(c) + InOrder(t) + [c.d]
    {
      hide CRep, Rep, InOrder, Pre, RedBlack, Sorted;
      PeekParent(c, t, node);
      c' := Across(c, t, node);
      WalkedAcross(c, t);
    }

    /** The subtree at `node` is walked: visits the parents on the way to the next subtree. */
    method Leave(stack: Stack<Node?>, node: Node, visited: seq<Data>, ghost c: RCtx, ghost t: RTree)
      returns (node': Node?, visited': seq<Data>, ghost c': RCtx, ghost t': RTree)
      requires Walking(stack, node, c, t) && t.l.Leaf? && t.r.Leaf? && visited == Pre(c) + InOrder(t)
      modifies stack
      ensures node' == null ==> visited' == InOrder(Shape)
      ensures node' != null ==> Walking(stack, node', c', t') && visited' == Pre(c') && |visited'| > |visited|
    {
      hide CRep, Rep, InOrder, Pre, RedBlack, Path;
      node', visited', c', t' := node, visited, c, t;
      WalkedAll(c, t);
      TopOfPath(c);
      var parent := stack.GetTop();
      if parent == null {
        return null, visited', c', t';
      }
      PeekParent(c, t, node);
      if parent.lchild == node {
        visited' := visited' + [parent.data];
        if sentinel != parent.rchild {
          c' := EnterRight(stack, node, c, t);
          return parent.rchild, visited', c', c.r;
        }
        WalkedAcross(c, t);
        var _ := stack.Pop();
        Up(c, t, node);
        c', t' := c.up, Join(c, t);
        node' := parent;
        TopOfPath(c');
        WalkedAll(c', t');
        parent := stack.GetTop();
        if parent == null {
          return null, visited', c', t';
        }
      }
      var n;
      n, parent, c', t' := Climb(stack, node', parent, c', t');
      WalkedAll(c', t');
      if parent == null {
        return null, visited', c', t';
      }
      PeekParent(c', t', n);
      visited' := visited' + [parent.data];
      ghost var c1 := EnterRight(stack, n, c', t');
      return parent.rchild, visited', c1, c'.r;
    }

    /** rbt_trav: `visited` lists the blocks in the order in which the callback gets them. */
    method Trav() returns (visited: seq<Data>)
      requires Valid() && num < 0x1_0000_0000_0000_0000
      ensures visited == InOrder(Shape)
    {
      hide CRep, Rep, Pre, RedBlack, Sorted;
      visited := [];
      var node: Node? := root;
      ghost var c, t := Top, Shape;
      Peek(c, t, node);
      if sentinel == node { return; }
      var stack := new Stack<Node?>(RBT_MAX_DEPTH, null);
      LeftmostPre(c);
      while sentinel != node
        invariant fresh(stack) && fresh(stack.base)
        invariant node != null && Walking(stack, node, c, t) && visited == Pre(c)
        decreases |InOrder(Shape)| - |visited|
      {
        PlugInOrder(c, t);
        node, c, t := GoLeftmost(stack, node, c, t);
        Peek(c, t, node);
        visited := visited + [node.data];
        WalkedNode(c, t);
        if sentinel != node.rchild {
          node, c, t := GoDownRight(stack, node, c, t);
          continue;
        }
        node, visited, c, t := Leave(stack, node, visited, c, t);
        if node == null {
          return;
        }
      }
      Peek(c, t, node);
    }

    lemma NotBelow(s: seq<Data>, n: nat, i: nat)
      requires Preorder(cmp) && Sorted(s, cmp) && n <= i < |s|
      ensures cmp(s[i], s[n]) >= 0
    {
      Flip(cmp, s[n], s[i]);
    }

    /** In ascending order `d` comes right behind items that the caller does not want. */
    lemma FirstFound(s: seq<Data>, p: seq<Data>, d: Data, find: Data -> bool)
      requires Preorder(cmp) && Sorted(s, cmp) && p + [d] <= s && forall x :: x in p ==> !find(x)
      ensures d in Items(s) && forall x :: x in Items(s) && cmp(x, d) < 0 ==> !find(x)
    {
      assert s[|p|] == (p + [d])[|p|] == d;
      forall i | |p| <= i < |s| ensures cmp(s[i], d) >= 0 {
        NotBelow(s, |p|, i);
      }
      forall x | x in Items(s) && cmp(x, d) < 0 ensures !find(x) {
        var i :| 0 <= i < |s| && s[i] == x;
        assert i < |p|;
        assert s[i] == (p + [d])[i] == p[i];
      }
    }

    /** The parent's item comes right behind its left subtree. */
    lemma ParentNext(c: RCtx, t: RTree)
      requires c.InL?
      ensures Pre(c) + InOrder(t) + [c.d] <= InOrder(Plug(c, t))
    {
      PlugInOrder(c, t);
      var p := Pre(c) + InOrder(t);
      assert Post(c) == [c.d] + InOrder(c.r) + Post(c.up);
      assert p + Post(c) == p + [c.d] + (InOrder(c.r) + Post(c.up));
    }

    lemma NodeNext(c: RCtx, t: RTree)
      requires t.Bin? && t.l.Leaf?
      ensures Pre(c) + [t.d] <= InOrder(Plug(c, t))
    {
      PlugInOrder(c, t);
      assert InOrder(t) == [t.d] + InOrder(t.r);
      assert Pre(c) + InOrder(t) + Post(c) == Pre(c) + [t.d] + (InOrder(t.r) + Post(c));
    }

    /** Leave, for rbt_find: stops at a parent that the caller wants. */
    method LeaveOrFind(stack: Stack<Node?>, node: Node, ghost visited: seq<Data>, find: Data -> bool, ghost c: RCtx,
        ghost t: RTree)
      returns (hit: Option<Data>, node': Node?, ghost visited': seq<Data>, ghost c': RCtx, ghost t': RTree)
      requires Walking(stack, node, c, t) && t.l.Leaf? && t.r.Leaf? && visited == Pre(c) + InOrder(t)
      requires forall d :: d in visited ==> !find(d)
      modifies stack
      ensures forall d :: d in visited' ==> !find(d)
      ensures hit.Some? ==> find(hit.value) && visited' + [hit.value] <= InOrder(Shape)
      ensures hit.None? && node' == null ==> visited' == InOrder(Shape)
      ensures hit.None? && node' != null ==>
        Walking(stack, node', c', t') && visited' == Pre(c') && |visited'| > |visited|
    {
      hide CRep, Rep, InOrder, Pre, RedBlack, Path;
      hit, node', visited', c', t' := None, node, visited, c, t;
      WalkedAll(c, t);
      TopOfPath(c);
      var parent := stack.GetTop();
      if parent == null {
        return None, null, visited', c', t';
      }
      PeekParent(c, t, node);
      if parent.lchild == node {
        if find(parent.data) {
          ParentNext(c, t);
          return Some(parent.data), null, visited', c', t';
        }
        visited' := visited' + [parent.data];
        if sentinel != parent.rchild {
          c' := EnterRight(stack, node, c, t);
          return None, parent.rchild, visited', c', c.r;
        }
        WalkedAcross(c, t);
        var _ := stack.Pop();
        Up(c, t, node);
        c', t' := c.up, Join(c, t);
        node' := parent;
        TopOfPath(c');
        WalkedAll(c', t');
        parent := stack.GetTop();
        if parent == null {
          return None, null, visited', c', t';
        }
      }
      var n;
      n, parent, c', t' := Climb(stack, node', parent, c', t');
      WalkedAll(c', t');
      if parent == null {
        return None, null, visited', c', t';
      }
      PeekParent(c', t', n);
      if find(parent.data) {
        ParentNext(c', t');
        return Some(parent.data), null, visited', c', t';
      }
      visited' := visited' + [parent.data];
      ghost var c1 := EnterRight(stack, n, c', t');
      t' := c'.r;
      c' := c1;
      node' := parent.rchild;
    }

    /** The leftmost node below, unless the caller wants it. */
    method LeftmostOrFind(stack: Stack<Node?>, node: Node, ghost visited: seq<Data>, find: Data -> bool,
        ghost c: RCtx, ghost t: RTree)
      returns (hit: Option<Data>, node': Node, ghost c': RCtx, ghost t': RTree)
      requires Walking(stack, node, c, t) && visited == Pre(c)
      modifies stack, stack.base
      ensures Walking(stack, node', c', t') && t'.l.Leaf? && Pre(c') == visited && Linked(c', t', node')
      ensures if hit.Some? then find(hit.value) && visited + [hit.value] <= InOrder(Shape) else !find(t'.d)
    {
      hide CRep, Rep, Pre, RedBlack, Sorted, InOrder, Plug;
      node', c', t' := GoLeftmost(stack, node, c, t);
      Peek(c', t', node');
      if find(node'.data) {
        NodeNext(c', t');
        hit := Some(node'.data);
      } else {
        hit := None;
      }
    }

    lemma EmptyTree()
      ensures Shape.Leaf? ==> Contents() == {}
    {
    }

    lemma LeftmostTop()
      ensures Pre<Node, Color>(Top) == [] && Path<Node, Color>(Top) == []
    {
    }

    lemma StillInside(c: RCtx, t: RTree)
      ensures |Pre(c)| + |InOrder(t)| <= |InOrder(Plug(c, t))|
    {
      PlugInOrder(c, t);
    }

    /** rbt_find: the item with the smallest key among those the caller wants, if there is one. */
    method Find(find: Data -> bool) returns (data: Option<Data>)
      requires Valid() && num < 0x1_0000_0000_0000_0000
      ensures data.None? <==> forall d :: d in Contents() ==> !find(d)
      ensures data.Some? ==> data.value in Contents() && find(data.value)
      ensures data.Some? ==> forall d :: d in Contents() && cmp(d, data.value) < 0 ==> !find(d)
    {
      hide CRep, Rep, Pre, RedBlack, Sorted, InOrder;
      ghost var visited: seq<Data> := [];
      var node: Node? := root;
      ghost var c, t := Top, Shape;
      Peek(c, t, node);
      EmptyTree();
      if sentinel == node { return None; }
      var stack := new Stack<Node?>(RBT_MAX_DEPTH, null);
      LeftmostTop();
      while sentinel != node
        invariant fresh(stack) && fresh(stack.base)
        invariant node != null && Walking(stack, node, c, t) && visited == Pre(c)
        invariant forall d :: d in visited ==> !find(d)
        decreases |InOrder(Shape)| - |visited|
      {
        var hit;
        hit, node, c, t := LeftmostOrFind(stack, node, visited, find, c, t);
        if hit.Some? {
          FirstFound(InOrder(Shape), visited, hit.value, find);
          return hit;
        }
        StillInside(c, t);
        Peek(c, t, node);
        visited := visited + [node.data];
        WalkedNode(c, t);
        if sentinel != node.rchild {
          node, c, t := GoDownRight(stack, node, c, t);
          StillInside(c, t);
          continue;
        }
        hit, node, visited, c, t := LeaveOrFind(stack, node, visited, find, c, t);
        if hit.Some? {
          FirstFound(InOrder(Shape), visited, hit.value, find);
          return hit;
        }
        if node == null {
          return None;
        }
        StillInside(c, t);
      }
      Peek(c, t, node);
      return None;
    }

    /** The loop of rbt_destroy that gives up nodes whose subtrees are gone. */
    method GiveUp(stack: Stack<Node?>, node: Node, parent: Node, freed: seq<Data>, ghost c: RCtx, ghost t: RTree)
      returns (node': Node, parent': Node?, freed': seq<Data>, ghost c': RCtx, ghost t': RTree)
      requires Walking(stack, node, c, t) && !c.Top? && parent == c.n
      requires freed + [t.d] == Before(c) + PostOrder(t)
      modifies stack
      ensures Walking(stack, node', c', t') && freed' + [t'.d] == Before(c') + PostOrder(t') && |freed'| >= |freed|
      ensures if parent' == null then c'.Top? else !c'.Top? && parent' == c'.n && c'.InL? && c'.r.Bin?
    {
      hide CRep, Rep, InOrder, Pre, RedBlack, Plug, Path, Depth, PostOrder, Before;
      node', parent', freed', c', t' := node, parent, freed, c, t;
      PeekParent(c', t', node');
      while node' == parent'.rchild || sentinel == parent'.rchild
        invariant Walking(stack, node', c', t') && freed' + [t'.d] == Before(c') + PostOrder(t') && |freed'| >= |freed|
        invariant parent' != null && !c'.Top? && parent' == c'.n
        decreases Depth(c')
      {
        PeekParent(c', t', node');
        PostUp(c', t');
        Peek(c', t', node');
        freed' := freed' + [node'.data];
        StepUp(c', t');
        node' := PopUp(stack, node', c', t');
        c', t' := c'.up, Join(c', t');
        TopOfPath(c');
        parent' := stack.GetTop();
        if parent' == null {
          return;
        }
      }
      PeekParent(c', t', node');
    }

    lemma StepUp(c: RCtx, t: RTree)
      requires !c.Top?
      ensures Plug(c.up, Join(c, t)) == Plug(c, t) && Depth(c.up) < Depth(c) && Join(c, t).Bin? && Join(c, t).d == c.d
    {
    }

    /** On to the parent's right subtree, with the left one gone. */
    lemma EnterRightFreed(stack: Stack<Node?>, node: Node, c: RCtx, t: RTree) returns (c': RCtx)
      requires Walking(stack, node, c, t) && c.InL? && c.r.Bin?
      ensures c.n.rchild != null && Walking(stack, c.n.rchild, c', c.r)
      ensures Before(c') == Before(c) + PostOrder(t)
    {
      hide CRep, Rep, InOrder, Pre, RedBlack, Sorted;
      PeekParent(c, t, node);
      Up(c, t, node);
      DownR(c.up, Join(c, t), c.n);
      c' := InR(c.n, c.m, c.d, t, c.up);
    }

    /** rbt_destroy: every item is given up exactly once, and every node after its children. */
    method Destroy() returns (freed: seq<Data>)
      requires Valid() && num < 0x1_0000_0000_0000_0000
      ensures freed == PostOrder(Shape) && multiset(freed) == multiset(InOrder(Shape))
    {
      hide CRep, Rep, Pre, InOrder, RedBlack, Sorted, PostOrder, Before, Plug;
      freed := [];
      PostOrderSame(Shape);
      var node: Node? := root;
      ghost var c, t := Top, Shape;
      AtTop();
      Peek(c, t, node);
      if sentinel == node { return; }
      var stack := new Stack<Node?>(RBT_MAX_DEPTH, null);
      while sentinel != node
        invariant fresh(stack) && fresh(stack.base)
        invariant node != null && Walking(stack, node, c, t) && freed == Before(c)
        decreases |PostOrder(Shape)| - |freed|, Height(t)
      {
        BeforeFits(c, t);
        node, c, t := GoLeftmost(stack, node, c, t);
        Peek(c, t, node);
        if sentinel != node.rchild {
          GoneRight(c, t);
          node, c, t := GoDownRight(stack, node, c, t);
          continue;
        }
        node, freed, c, t := FreeUp(stack, node, freed, c, t);
        if node == null {
          return;
        }
      }
      Peek(c, t, node);
    }

    lemma AtTop()
      ensures Plug(Top, Shape) == Shape && Path<Node, Color>(Top) == [] && Before<Node, Color>(Top) == []
      ensures Shape.Leaf? ==> PostOrder(Shape) == []
    {
    }

    lemma GoneRight(c: RCtx, t: RTree)
      requires t.Bin? && t.l.Leaf?
      ensures var c' := InR(t.n, t.m, t.d, t.l, c);
        Before(c') == Before(c) && Plug(c', t.r) == Plug(c, t) && Height(t.r) < Height(t) && Path(c') == Path(c) + [t.n]
    {
    }

    /** A node without children, and those above it that have nothing left below them. */
    method FreeUp(stack: Stack<Node?>, node: Node, freed: seq<Data>, ghost c: RCtx, ghost t: RTree)
      returns (node': Node?, freed': seq<Data>, ghost c': RCtx, ghost t': RTree)
      requires Walking(stack, node, c, t) && t.l.Leaf? && t.r.Leaf? && freed == Before(c)
      modifies stack
      ensures node' == null ==> freed' == PostOrder(Shape)
      ensures node' != null ==> Walking(stack, node', c', t') && freed' == Before(c') && |freed'| > |freed|
    {
      hide CRep, Rep, InOrder, Pre, RedBlack, Path, PostOrder, Before, Plug;
      LeafPost(t);
      Peek(c, t, node);
      node', freed', c', t' := node, freed, c, t;
      TopOfPath(c);
      var parent := stack.GetTop();
      if parent == null {
        Finished(c, t);
        return null, freed + [node.data], c', t';
      }
      PeekParent(c, t, node);
      if parent.lchild == node && sentinel != parent.rchild {
        freed' := freed' + [node.data];
        c' := EnterRightFreed(stack, node, c, t);
        return parent.rchild, freed', c', c.r;
      }
      var n;
      n, parent, freed', c', t' := GiveUp(stack, node, parent, freed', c', t');
      Peek(c', t', n);
      freed' := freed' + [n.data];
      if parent == null {
        Finished(c', t');
        return null, freed', c', t';
      }
      ghost var c1 := EnterRightFreed(stack, n, c', t');
      t' := c'.r;
      c' := c1;
      node' := parent.rchild;
    }

    lemma LeafPost(t: RTree)
      requires t.Bin? && t.l.Leaf? && t.r.Leaf?
      ensures PostOrder(t) == [t.d]
    {
    }

    lemma Finished(c: RCtx, t: RTree)
      requires c.Top?
      ensures Before(c) + PostOrder(t) == PostOrder(Plug(c, t))
    {
    }
  }
}
