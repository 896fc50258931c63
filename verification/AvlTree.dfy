/** The AVL tree of avl_tree.c: parent-linked nodes that store their balance factors. */
module AvlTree {
  import opened Options
  import opened Orders
  import opened BinTree
  import opened AvlShape

  class Node {
    var bf: int
    var parent: Node?
    var lchild: Node?
    var rchild: Node?
    var data: Data

    constructor (parent: Node?, data: Data)
      ensures this.parent == parent && lchild == null && rchild == null && bf == EH && this.data == data
    {
      this.parent, lchild, rchild := parent, null, null;
      bf := EH;
      this.data := data;
    }
  }

  type ATree = Tree<Node, int>
  type ACtx = Ctx<Node, int>

  /** The nodes of `t` are in the heap as `t` says, hanging below `p`; `x` is the root pointer. */
  ghost predicate Rep(t: ATree, x: Node?, p: Node?)
    reads Nodes(t)
  {
    match t
    case Leaf => x == null
    case Bin(n, m, d, l, r) =>
      && x == n && n.parent == p && n.bf == m && n.data == d
      && Rep(l, n.lchild, n) && Rep(r, n.rchild, n)
      && n !in Nodes(l) && n !in Nodes(r) && Nodes(l) !! Nodes(r)
  }

  ghost function RootOf(t: ATree): Node? {
    if t.Leaf? then null else t.n
  }

  /** The parent of the hole of `c`. */
  ghost function HoleParent(c: ACtx): Node? {
    if c.Top? then null else c.n
  }

  /** The nodes around the hole of `c` are in the heap as `c` says; `x` is the pointer in the hole. */
  ghost predicate CRep(c: ACtx, root: Node?, x: Node?)
    reads CNodes(c)
  {
    match c
    case Top => root == x
    case InL(n, m, d, r, up) =>
      && n.lchild == x && n.bf == m && n.data == d && n.parent == HoleParent(up)
      && Rep(r, n.rchild, n) && CRep(up, root, n)
      && n !in Nodes(r) && n !in CNodes(up) && Nodes(r) !! CNodes(up)
    case InR(n, m, d, l, up) =>
      && n.rchild == x && n.bf == m && n.data == d && n.parent == HoleParent(up)
      && Rep(l, n.lchild, n) && CRep(up, root, n)
      && n !in Nodes(l) && n !in CNodes(up) && Nodes(l) !! CNodes(up)
  }

  class AvlTree {
    const cmp: Order
    var num: int
    var root: Node?
    ghost var Repr: set<Node>
    ghost var Shape: ATree

    /** `t` is the subtree below `x`, and `c` is the rest of the tree. */
    ghost predicate Linked(c: ACtx, t: ATree, x: Node?)
      reads this, CNodes(c), Nodes(t)
    {
      && CNodes(c) <= Repr && Nodes(t) <= Repr
      && Rep(t, x, HoleParent(c)) && CRep(c, root, x)
      && CNodes(c) !! Nodes(t)
    }

    constructor (cmp: Order)
      ensures Shape == Leaf && Repr == {} && Linked(Top, Leaf, root) && num == 0 && this.cmp == cmp
    {
      this.cmp := cmp;
      root := null;
      num := 0;
      Repr := {};
      Shape := Leaf;
    }

    lemma Up(c: ACtx, t: ATree, x: Node?)
      requires Linked(c, t, x) && !c.Top?
      ensures Linked(c.up, Join(c, t), c.n)
    {
    }

    /** Down again: the inverse of `Up`. */
    lemma Back(c: ACtx, t: ATree)
      requires !c.Top? && Linked(c.up, Join(c, t), c.n)
      ensures Linked(c, t, RootOf(t))
    {
      assert Rep(t, if c.InL? then c.n.lchild else c.n.rchild, c.n);
    }

    /** What the fields of a node tell about the tree around it. */
    lemma Peek(c: ACtx, t: ATree, x: Node?)
      requires Linked(c, t, x)
      ensures x == RootOf(t) && (c.Top? ==> root == x)
      ensures t.Bin? ==> x.bf == t.m && x.data == t.d && x.parent == HoleParent(c)
      ensures t.Bin? ==> x.lchild == RootOf(t.l) && x.rchild == RootOf(t.r) && x in Repr
      ensures t.Bin? && t.l.Bin? ==> t.l.n.lchild == RootOf(t.l.l) && t.l.n.rchild == RootOf(t.l.r) && t.l.n.bf == t.l.m
      ensures t.Bin? && t.r.Bin? ==> t.r.n.lchild == RootOf(t.r.l) && t.r.n.rchild == RootOf(t.r.r) && t.r.n.bf == t.r.m
    {
      assert t.Bin? ==> Rep(t.l, t.n.lchild, t.n) && Rep(t.r, t.n.rchild, t.n);
      assert t.Bin? && t.l.Bin? ==> Rep(t.l.l, t.l.n.lchild, t.l.n) && Rep(t.l.r, t.l.n.rchild, t.l.n);
      assert t.Bin? && t.r.Bin? ==> Rep(t.r.l, t.r.n.lchild, t.r.n) && Rep(t.r.r, t.r.n.rchild, t.r.n);
    }

    method SetBf(node: Node, bf: int, ghost c: ACtx, ghost t: ATree)
      requires t.Bin? && Linked(c, t, node)
      modifies Repr`bf
      ensures Linked(c, t.(m := bf), node)
    {
      node.bf := bf;
    }

    /** avl_replace_child: `new_`, the root of `a`, takes the place of `old_` below `parent`. */
    method ReplaceChild(parent: Node?, old_: Node, new_: Node?, ghost c: ACtx, ghost a: ATree)
      requires CRep(c, root, old_) && parent == HoleParent(c) && old_ !in CNodes(c)
      requires new_ == RootOf(a) && Rep(a, new_, if new_ == null then null else new_.parent) && CNodes(c) !! Nodes(a)
      modifies this`root, CNodes(c)`lchild, CNodes(c)`rchild, (if new_ == null then {} else {new_})`parent
      ensures CRep(c, root, new_) && Rep(a, new_, parent)
    {
      assert c.InR? ==> Rep(c.l, c.n.lchild, c.n);
      if parent == null {
        root := new_;
        if new_ != null {
          new_.parent := null;
        }
      } else if parent.lchild == old_ {
        parent.lchild := new_;
        if new_ != null {
          new_.parent := parent;
        }
      } else if parent.rchild == old_ {
        parent.rchild := new_;
        if new_ != null {
          new_.parent := parent;
        }
      }
    }

    /** Three disjoint subtrees, and two nodes outside them. */
    static ghost predicate Apart(a: ATree, b: ATree, e: ATree, x: Node, y: Node) {
      && Nodes(a) !! Nodes(b) && Nodes(a) !! Nodes(e) && Nodes(b) !! Nodes(e)
      && x != y && {x, y} !! Nodes(a) && {x, y} !! Nodes(b) && {x, y} !! Nodes(e)
    }

    /** The subtree `b` at `x` gets the parent p, unless it is empty. */
    method LinkParent(x: Node?, p: Node, ghost q: Node, ghost b: ATree)
      requires Rep(b, x, q)
      modifies Nodes(b)`parent
      ensures Rep(b, x, p)
    {
      if x != null {
        x.parent := p;
      }
    }

    /** The links of a left rotation: `node` gets the inner subtree `b` of `rchild` and becomes its left
        child; the pointer to `node` from above is left for `ReplaceChild`. */
    method AdoptLeft(node: Node, rchild: Node, ghost c: ACtx, ghost y: Node?, ghost a: ATree, ghost b: ATree,
        ghost e: ATree)
      requires CRep(c, root, y) && Rep(a, node.lchild, node) && Rep(b, rchild.lchild, rchild)
      requires Rep(e, rchild.rchild, rchild)
      requires Apart(a, b, e, node, rchild) && CNodes(c) !! {node, rchild} && CNodes(c) !! Nodes(b)
      requires Nodes(a) <= Repr && Nodes(b) <= Repr && Nodes(e) <= Repr && CNodes(c) <= Repr
      modifies node`rchild, node`parent, rchild`lchild, Nodes(b)`parent
      ensures rchild.lchild == node && node.parent == rchild
      ensures CRep(c, root, y) && Rep(a, node.lchild, node) && Rep(b, node.rchild, node)
      ensures Rep(e, rchild.rchild, rchild)
    {
      hide CRep, Rep, Nodes, CNodes;
      node.rchild := rchild.lchild;
      LinkParent(rchild.lchild, node, rchild, b);
      rchild.lchild := node;
      node.parent := rchild;
    }

    /** The mirror image of `AdoptLeft`. */
    method AdoptRight(node: Node, lchild: Node, ghost c: ACtx, ghost y: Node?, ghost a: ATree, ghost b: ATree,
        ghost e: ATree)
      requires CRep(c, root, y) && Rep(a, lchild.lchild, lchild) && Rep(b, lchild.rchild, lchild)
      requires Rep(e, node.rchild, node)
      requires Apart(a, b, e, node, lchild) && CNodes(c) !! {node, lchild} && CNodes(c) !! Nodes(b)
      requires Nodes(a) <= Repr && Nodes(b) <= Repr && Nodes(e) <= Repr && CNodes(c) <= Repr
      modifies node`lchild, node`parent, lchild`rchild, Nodes(b)`parent
      ensures lchild.rchild == node && node.parent == lchild
      ensures CRep(c, root, y) && Rep(a, lchild.lchild, lchild) && Rep(b, node.lchild, node)
      ensures Rep(e, node.rchild, node)
    {
      hide CRep, Rep, Nodes, CNodes;
      node.lchild := lchild.rchild;
      LinkParent(lchild.rchild, node, lchild, b);
      lchild.rchild := node;
      node.parent := lchild;
    }

    lemma OpenLeft(c: ACtx, t: ATree, node: Node)
      requires t.Bin? && t.r.Bin? && Linked(c, t, node)
      ensures node == t.n && node.parent == HoleParent(c) && node.bf == t.m && node.data == t.d
      ensures var ch := t.r.n;
              && node.rchild == ch && ch.bf == t.r.m && ch.data == t.r.d && CRep(c, root, node)
              && Rep(t.r, ch, node) && Rep(t.r.r, ch.rchild, ch) && Rep(t.r.l, ch.lchild, ch)
              && Rep(t.l, node.lchild, node)
              && Apart(t.l, t.r.l, t.r.r, node, ch) && CNodes(c) !! {node, ch} && CNodes(c) !! Nodes(t.r.l)
              && CNodes(c) !! Nodes(RotateLeft(t))
              && Nodes(t.r.l) <= Repr && Nodes(t.l) <= Repr && Nodes(t.r.r) <= Repr && {node, ch} <= Repr
              && CNodes(c) <= Repr && Nodes(RotateLeft(t)) <= Repr
    {
      hide CRep;
      assert Rep(t.r, node.rchild, node);
      RotateLeftSame(t);
    }

    lemma CloseLeft(t: ATree, node: Node, rchild: Node)
      requires t.Bin? && t.r.Bin? && node == t.n && rchild == t.r.n
      requires rchild.lchild == node && node.parent == rchild
      requires rchild.bf == t.r.m && rchild.data == t.r.d && node.bf == t.m && node.data == t.d
      requires Rep(t.r.r, rchild.rchild, rchild) && Rep(t.r.l, node.rchild, node) && Rep(t.l, node.lchild, node)
      requires Apart(t.l, t.r.l, t.r.r, node, rchild)
      ensures Rep(RotateLeft(t), rchild, rchild.parent)
    {
      assert Rep(t.(r := t.r.l), node, rchild);
    }

    /** A left rotation: the links, then the pointer from above. */
    method LinkLeft(node: Node, rchild: Node, parent: Node?, ghost c: ACtx, ghost t: ATree)
      requires t.Bin? && t.r.Bin? && Linked(c, t, node) && rchild == t.r.n && parent == HoleParent(c)
      modifies this`root, Repr`parent, Repr`lchild, Repr`rchild
      ensures Linked(c, RotateLeft(t), rchild)
    {
      hide CRep, Nodes;
      OpenLeft(c, t, node);
      AdoptLeft(node, rchild, c, node, t.l, t.r.l, t.r.r);
      CloseLeft(t, node, rchild);
      ReplaceChild(parent, node, rchild, c, RotateLeft(t));
    }

    lemma OpenRight(c: ACtx, t: ATree, node: Node)
      requires t.Bin? && t.l.Bin? && Linked(c, t, node)
      ensures node == t.n && node.parent == HoleParent(c) && node.bf == t.m && node.data == t.d
      ensures var ch := t.l.n;
              && node.lchild == ch && ch.bf == t.l.m && ch.data == t.l.d && CRep(c, root, node)
              && Rep(t.l, ch, node) && Rep(t.l.l, ch.lchild, ch) && Rep(t.l.r, ch.rchild, ch)
              && Rep(t.r, node.rchild, node)
              && Apart(t.l.l, t.l.r, t.r, node, ch) && CNodes(c) !! {node, ch} && CNodes(c) !! Nodes(t.l.r)
              && CNodes(c) !! Nodes(RotateRight(t))
              && Nodes(t.l.r) <= Repr && Nodes(t.r) <= Repr && Nodes(t.l.l) <= Repr && {node, ch} <= Repr
              && CNodes(c) <= Repr && Nodes(RotateRight(t)) <= Repr
    {
      hide CRep;
      assert Rep(t.l, node.lchild, node);
      RotateRightSame(t);
    }

    lemma CloseRight(t: ATree, node: Node, lchild: Node)
      requires t.Bin? && t.l.Bin? && node == t.n && lchild == t.l.n
      requires lchild.rchild == node && node.parent == lchild
      requires lchild.bf == t.l.m && lchild.data == t.l.d && node.bf == t.m && node.data == t.d
      requires Rep(t.l.l, lchild.lchild, lchild) && Rep(t.l.r, node.lchild, node) && Rep(t.r, node.rchild, node)
      requires Apart(t.l.l, t.l.r, t.r, node, lchild)
      ensures Rep(RotateRight(t), lchild, lchild.parent)
    {
      assert Rep(t.(l := t.l.r), node, lchild);
    }

    /** A right rotation: the links, then the pointer from above. */
    method LinkRight(node: Node, lchild: Node, parent: Node?, ghost c: ACtx, ghost t: ATree)
      requires t.Bin? && t.l.Bin? && Linked(c, t, node) && lchild == t.l.n && parent == HoleParent(c)
      modifies this`root, Repr`parent, Repr`lchild, Repr`rchild
      ensures Linked(c, RotateRight(t), lchild)
    {
      hide CRep, Nodes;
      OpenRight(c, t, node);
      AdoptRight(node, lchild, c, node, t.l.l, t.l.r, t.r);
      CloseRight(t, node, lchild);
      ReplaceChild(parent, node, lchild, c, RotateRight(t));
    }

    /** The tree after a double rotation to the left. */
    static ghost function DoubleLeftLinks(t: ATree): ATree
      requires t.Bin? && t.r.Bin? && t.r.l.Bin?
    {
      RotateLeft(Bin(t.n, t.m, t.d, t.l, RotateRight(t.r)))
    }

    lemma OpenDoubleLeft(c: ACtx, t: ATree, node: Node)
      requires t.Bin? && t.r.Bin? && t.r.l.Bin? && Linked(c, t, node)
      ensures var rchild, rlchild := t.r.n, t.r.l.n;
              && node == t.n && node.parent == HoleParent(c) && node.bf == t.m && node.data == t.d
              && CRep(c, root, node)
              && rchild.bf == t.r.m && rchild.data == t.r.d && rlchild.bf == t.r.l.m && rlchild.data == t.r.l.d
              && Rep(t.l, node.lchild, node) && Rep(t.r.r, rchild.rchild, rchild)
              && Rep(t.r.l.l, rlchild.lchild, rlchild) && Rep(t.r.l.r, rlchild.rchild, rlchild)
              && Apart(t.r.l.l, t.r.l.r, t.r.r, t.r.n, t.r.l.n)
              && Apart(t.l, t.r.l.l, Bin(t.r.n, t.r.m, t.r.d, t.r.l.r, t.r.r), node, t.r.l.n)
              && rchild !in Nodes(t.l) && rchild !in Nodes(t.r.l.l) && node != rchild && node !in Nodes(t.r.l.r)
              && node !in Nodes(t.r.r)
              && Nodes(t.r.l.r) !! Nodes(t.l) && rchild !in Nodes(t.r.l.r) && rchild !in Nodes(t.r.r)
              && Nodes(t.r.l.r) !! Nodes(t.r.r)
              && CNodes(c) !! {node, rchild, rlchild} && CNodes(c) !! Nodes(t.r.l.r) && CNodes(c) !! Nodes(t.r.l.l)
              && CNodes(c) !! Nodes(DoubleLeftLinks(t)) && CNodes(c) <= Repr && Nodes(DoubleLeftLinks(t)) <= Repr
              && Nodes(t.r.l.r) <= Repr && Nodes(t.r.l.l) <= Repr && Nodes(t.l) <= Repr && Nodes(t.r.r) <= Repr
              && Nodes(Bin(t.r.n, t.r.m, t.r.d, t.r.l.r, t.r.r)) <= Repr && {node, rchild, rlchild} <= Repr
    {
      hide CRep;
      assert Rep(t.r, node.rchild, node) && Rep(t.r.l, t.r.n.lchild, t.r.n);
    }

    lemma CloseDoubleLeft(t: ATree, node: Node, rchild: Node, rlchild: Node)
      requires t.Bin? && t.r.Bin? && t.r.l.Bin? && node == t.n && rchild == t.r.n && rlchild == t.r.l.n
      requires rlchild.lchild == node && node.parent == rlchild && rlchild.bf == t.r.l.m && rlchild.data == t.r.l.d
      requires node.bf == t.m && node.data == t.d
      requires Rep(Bin(t.r.n, t.r.m, t.r.d, t.r.l.r, t.r.r), rchild, rlchild) && rlchild.rchild == rchild
      requires Rep(t.l, node.lchild, node) && Rep(t.r.l.l, node.rchild, node)
      requires Apart(t.l, t.r.l.l, Bin(t.r.n, t.r.m, t.r.d, t.r.l.r, t.r.r), node, t.r.l.n)
      ensures Rep(DoubleLeftLinks(t), rlchild, rlchild.parent)
    {
      assert Rep(Bin(t.n, t.m, t.d, t.l, t.r.l.l), node, rlchild);
    }

    /** A double rotation to the left: the four links, then the pointer from above. */
    method LinkDoubleLeft(node: Node, rchild: Node, rlchild: Node, parent: Node?, ghost c: ACtx, ghost t: ATree)
      requires t.Bin? && t.r.Bin? && t.r.l.Bin? && Linked(c, t, node)
      requires rchild == t.r.n && rlchild == t.r.l.n && parent == HoleParent(c)
      modifies this`root, Repr`parent, Repr`lchild, Repr`rchild
      ensures Linked(c, DoubleLeftLinks(t), rlchild)
    {
      hide CRep, Nodes;
      OpenDoubleLeft(c, t, node);
      AdoptRight(rchild, rlchild, c, node, t.r.l.l, t.r.l.r, t.r.r);
      assert Rep(Bin(t.r.n, t.r.m, t.r.d, t.r.l.r, t.r.r), rchild, rlchild);
      AdoptLeft(node, rlchild, c, node, t.l, t.r.l.l, Bin(t.r.n, t.r.m, t.r.d, t.r.l.r, t.r.r));
      CloseDoubleLeft(t, node, rchild, rlchild);
      ReplaceChild(parent, node, rlchild, c, DoubleLeftLinks(t));
    }

    /** The tree after a double rotation to the right. */
    static ghost function DoubleRightLinks(t: ATree): ATree
      requires t.Bin? && t.l.Bin? && t.l.r.Bin?
    {
      RotateRight(Bin(t.n, t.m, t.d, RotateLeft(t.l), t.r))
    }

    lemma OpenDoubleRight(c: ACtx, t: ATree, node: Node)
      requires t.Bin? && t.l.Bin? && t.l.r.Bin? && Linked(c, t, node)
      ensures var lchild, lrchild := t.l.n, t.l.r.n;
              && node == t.n && node.parent == HoleParent(c) && node.bf == t.m && node.data == t.d
              && CRep(c, root, node)
              && lchild.bf == t.l.m && lchild.data == t.l.d && lrchild.bf == t.l.r.m && lrchild.data == t.l.r.d
              && Rep(t.r, node.rchild, node) && Rep(t.l.l, lchild.lchild, lchild)
              && Rep(t.l.r.r, lrchild.rchild, lrchild) && Rep(t.l.r.l, lrchild.lchild, lrchild)
              && Apart(t.l.l, t.l.r.l, t.l.r.r, t.l.n, t.l.r.n)
              && Apart(Bin(t.l.n, t.l.m, t.l.d, t.l.l, t.l.r.l), t.l.r.r, t.r, node, t.l.r.n)
              && lchild !in Nodes(t.r) && lchild !in Nodes(t.l.r.r) && node != lchild && node !in Nodes(t.l.r.l)
              && node !in Nodes(t.l.l)
              && Nodes(t.l.r.l) !! Nodes(t.r) && lchild !in Nodes(t.l.r.l) && lchild !in Nodes(t.l.l)
              && Nodes(t.l.r.l) !! Nodes(t.l.l)
              && CNodes(c) !! {node, lchild, lrchild} && CNodes(c) !! Nodes(t.l.r.l) && CNodes(c) !! Nodes(t.l.r.r)
              && CNodes(c) !! Nodes(DoubleRightLinks(t)) && CNodes(c) <= Repr && Nodes(DoubleRightLinks(t)) <= Repr
              && Nodes(t.l.r.l) <= Repr && Nodes(t.l.r.r) <= Repr && Nodes(t.r) <= Repr && Nodes(t.l.l) <= Repr
              && Nodes(Bin(t.l.n, t.l.m, t.l.d, t.l.l, t.l.r.l)) <= Repr && {node, lchild, lrchild} <= Repr
    {
      hide CRep;
      assert Rep(t.l, node.lchild, node) && Rep(t.l.r, t.l.n.rchild, t.l.n);
    }

    lemma CloseDoubleRight(t: ATree, node: Node, lchild: Node, lrchild: Node)
      requires t.Bin? && t.l.Bin? && t.l.r.Bin? && node == t.n && lchild == t.l.n && lrchild == t.l.r.n
      requires lrchild.rchild == node && node.parent == lrchild && lrchild.bf == t.l.r.m && lrchild.data == t.l.r.d
      requires node.bf == t.m && node.data == t.d
      requires Rep(Bin(t.l.n, t.l.m, t.l.d, t.l.l, t.l.r.l), lchild, lrchild) && lrchild.lchild == lchild
      requires Rep(t.r, node.rchild, node) && Rep(t.l.r.r, node.lchild, node)
      requires Apart(Bin(t.l.n, t.l.m, t.l.d, t.l.l, t.l.r.l), t.l.r.r, t.r, node, t.l.r.n)
      ensures Rep(DoubleRightLinks(t), lrchild, lrchild.parent)
    {
      assert Rep(Bin(t.n, t.m, t.d, t.l.r.r, t.r), node, lrchild);
    }

    /** A double rotation to the right: the four links, then the pointer from above. */
    method LinkDoubleRight(node: Node, lchild: Node, lrchild: Node, parent: Node?, ghost c: ACtx, ghost t: ATree)
      requires t.Bin? && t.l.Bin? && t.l.r.Bin? && Linked(c, t, node)
      requires lchild == t.l.n && lrchild == t.l.r.n && parent == HoleParent(c)
      modifies this`root, Repr`parent, Repr`lchild, Repr`rchild
      ensures Linked(c, DoubleRightLinks(t), lrchild)
    {
      hide CRep, Nodes;
      OpenDoubleRight(c, t, node);
      AdoptLeft(lchild, lrchild, c, node, t.l.l, t.l.r.l, t.l.r.r);
      assert Rep(Bin(t.l.n, t.l.m, t.l.d, t.l.l, t.l.r.l), lchild, lrchild);
      AdoptRight(node, lrchild, c, node, Bin(t.l.n, t.l.m, t.l.d, t.l.l, t.l.r.l), t.l.r.r, t.r);
      CloseDoubleRight(t, node, lchild, lrchild);
      ReplaceChild(parent, node, lrchild, c, DoubleRightLinks(t));
    }

    method SetTwoRight(node: Node, rchild: Node, bn: int, bc: int, ghost c: ACtx, ghost t: ATree)
      requires t.Bin? && t.r.Bin? && Linked(c, t, node) && rchild == t.r.n
      modifies Repr`bf
      ensures Linked(c, Bin(t.n, bn, t.d, t.l, Mark(t.r, bc)), node)
    {
      hide CRep, Rep;
      Peek(c, t, node);
      SetBf(node, bn, c, t);
      ghost var cc := InR(t.n, bn, t.d, t.l, c);
      Back(cc, t.r);
      SetBf(rchild, bc, cc, t.r);
      Up(cc, Mark(t.r, bc), rchild);
    }

    method SetThreeRight(node: Node, rchild: Node, rlchild: Node, bn: int, bc: int, ghost c: ACtx, ghost t: ATree)
      requires t.Bin? && t.r.Bin? && t.r.l.Bin? && Linked(c, t, node) && rchild == t.r.n && rlchild == t.r.l.n
      modifies Repr`bf
      ensures Linked(c, Bin(t.n, bn, t.d, t.l, Bin(t.r.n, bc, t.r.d, Mark(t.r.l, EH), t.r.r)), node)
    {
      hide CRep, Rep;
      Peek(c, t, node);
      SetTwoRight(node, rchild, bn, bc, c, t);
      ghost var s := Mark(t.r, bc);
      ghost var cc := InR(t.n, bn, t.d, t.l, c);
      Back(cc, s);
      ghost var cg := InL(s.n, s.m, s.d, s.r, cc);
      Back(cg, s.l);
      SetBf(rlchild, EH, cg, s.l);
      Up(cg, Mark(s.l, EH), rlchild);
      Up(cc, Join(cg, Mark(s.l, EH)), rchild);
    }

    /** avl_rr_balance. */
    method RrBalance(node: Node, ghost c: ACtx, ghost t: ATree)
      requires t.Bin? && t.r.Bin? && t.r.m == RH && Linked(c, t, node)
      modifies this`root, Repr`bf, Repr`parent, Repr`lchild, Repr`rchild
      ensures Linked(c, SingleLeft(t), t.r.n)
    {
      hide CRep, Rep;
      Peek(c, t, node);
      var rchild, parent := node.rchild, node.parent;
      SetTwoRight(node, rchild, EH, EH, c, t);
      LinkLeft(node, rchild, parent, c, Bin(t.n, EH, t.d, t.l, Mark(t.r, EH)));
    }

    /** The links and factors of a double rotation, for insertion and deletion alike. */
    method RotateDoubleLeft(node: Node, rchild: Node, parent: Node?, ghost c: ACtx, ghost t: ATree)
      requires t.Bin? && t.r.Bin? && t.r.l.Bin? && t.r.l.m in {LH, EH, RH} && Linked(c, t, node)
      requires rchild == t.r.n && parent == HoleParent(c)
      modifies this`root, Repr`bf, Repr`parent, Repr`lchild, Repr`rchild
      ensures Linked(c, DoubleLeft(t), t.r.l.n)
    {
      hide CRep, Rep;
      Peek(c, t, node);
      var rlchild := rchild.lchild;
      Back(InR(t.n, t.m, t.d, t.l, c), t.r);
      Peek(InR(t.n, t.m, t.d, t.l, c), t.r, rchild);
      var bn, bc := EH, EH;
      if rlchild.bf == LH {
        bc := RH;
      } else if rlchild.bf == RH {
        bn := LH;
      }
      SetThreeRight(node, rchild, rlchild, bn, bc, c, t);
      LinkDoubleLeft(node, rchild, rlchild, parent, c,
        Bin(t.n, bn, t.d, t.l, Bin(t.r.n, bc, t.r.d, Mark(t.r.l, EH), t.r.r)));
    }

    /** avl_rl_balance. */
    method RlBalance(node: Node, ghost c: ACtx, ghost t: ATree)
      requires t.Bin? && t.r.Bin? && t.r.l.Bin? && t.r.l.m in {LH, EH, RH} && Linked(c, t, node)
      modifies this`root, Repr`bf, Repr`parent, Repr`lchild, Repr`rchild
      ensures Linked(c, DoubleLeft(t), t.r.l.n)
    {
      hide CRep, Rep;
      Peek(c, t, node);
      RotateDoubleLeft(node, node.rchild, node.parent, c, t);
    }

    /** avl_right_balance, after an insertion made the right subtree two levels too high. */
    method RightBalance(node: Node, ghost c: ACtx, ghost t: ATree) returns (ok: bool, ghost t': ATree)
      requires t.Bin? && Balanced(t.l) && Balanced(t.r) && Height(t.r) == Height(t.l) + 2 && Linked(c, t, node)
      modifies this`root, Repr`bf, Repr`parent, Repr`lchild, Repr`rchild
      ensures Linked(c, t', RootOf(t')) && InOrder(t') == InOrder(t)
      ensures ok <==> t.r.Bin? && t.r.m != EH
      ensures ok ==> Balanced(t') && Height(t') == Height(t) - 1
    {
      hide CRep, Rep, InOrder, Height, Balanced;
      RightTooHigh(t);
      RotationsSame(t);
      FactorRange(t.r);
      Peek(c, t, node);
      var rchild := node.rchild;
      if rchild.bf == RH {
        RrBalance(node, c, t);
        return true, SingleLeft(t);
      } else if rchild.bf == LH {
        RlBalance(node, c, t);
        return true, DoubleLeft(t);
      }
      return false, t;
    }

    method SetTwoLeft(node: Node, lchild: Node, bn: int, bc: int, ghost c: ACtx, ghost t: ATree)
      requires t.Bin? && t.l.Bin? && Linked(c, t, node) && lchild == t.l.n
      modifies Repr`bf
      ensures Linked(c, Bin(t.n, bn, t.d, Mark(t.l, bc), t.r), node)
    {
      hide CRep, Rep;
      Peek(c, t, node);
      SetBf(node, bn, c, t);
      ghost var cc := InL(t.n, bn, t.d, t.r, c);
      Back(cc, t.l);
      SetBf(lchild, bc, cc, t.l);
      Up(cc, Mark(t.l, bc), lchild);
    }

    method SetThreeLeft(node: Node, lchild: Node, lrchild: Node, bn: int, bc: int, ghost c: ACtx, ghost t: ATree)
      requires t.Bin? && t.l.Bin? && t.l.r.Bin? && Linked(c, t, node) && lchild == t.l.n && lrchild == t.l.r.n
      modifies Repr`bf
      ensures Linked(c, Bin(t.n, bn, t.d, Bin(t.l.n, bc, t.l.d, t.l.l, Mark(t.l.r, EH)), t.r), node)
    {
      hide CRep, Rep;
      Peek(c, t, node);
      SetTwoLeft(node, lchild, bn, bc, c, t);
      ghost var s := Mark(t.l, bc);
      ghost var cc := InL(t.n, bn, t.d, t.r, c);
      Back(cc, s);
      ghost var cg := InR(s.n, s.m, s.d, s.l, cc);
      Back(cg, s.r);
      SetBf(lrchild, EH, cg, s.r);
      Up(cg, Mark(s.r, EH), lrchild);
      Up(cc, Join(cg, Mark(s.r, EH)), lchild);
    }

    /** avl_ll_balance. */
    method LlBalance(node: Node, ghost c: ACtx, ghost t: ATree)
      requires t.Bin? && t.l.Bin? && t.l.m == LH && Linked(c, t, node)
      modifies this`root, Repr`bf, Repr`parent, Repr`lchild, Repr`rchild
      ensures Linked(c, SingleRight(t), t.l.n)
    {
      hide CRep, Rep;
      Peek(c, t, node);
      var lchild, parent := node.lchild, node.parent;
      SetTwoLeft(node, lchild, EH, EH, c, t);
      LinkRight(node, lchild, parent, c, Bin(t.n, EH, t.d, Mark(t.l, EH), t.r));
    }

    /** The links and factors of a double rotation, for insertion and deletion alike. */
    method RotateDoubleRight(node: Node, lchild: Node, parent: Node?, ghost c: ACtx, ghost t: ATree)
      requires t.Bin? && t.l.Bin? && t.l.r.Bin? && t.l.r.m in {LH, EH, RH} && Linked(c, t, node)
      requires lchild == t.l.n && parent == HoleParent(c)
      modifies this`root, Repr`bf, Repr`parent, Repr`lchild, Repr`rchild
      ensures Linked(c, DoubleRight(t), t.l.r.n)
    {
      hide CRep, Rep;
      Peek(c, t, node);
      var lrchild := lchild.rchild;
      Back(InL(t.n, t.m, t.d, t.r, c), t.l);
      Peek(InL(t.n, t.m, t.d, t.r, c), t.l, lchild);
      var bn, bc := EH, EH;
      if lrchild.bf == LH {
        bn := RH;
      } else if lrchild.bf == RH {
        bc := LH;
      }
      SetThreeLeft(node, lchild, lrchild, bn, bc, c, t);
      LinkDoubleRight(node, lchild, lrchild, parent, c,
        Bin(t.n, bn, t.d, Bin(t.l.n, bc, t.l.d, t.l.l, Mark(t.l.r, EH)), t.r));
    }

    /** avl_lr_balance. */
    method LrBalance(node: Node, ghost c: ACtx, ghost t: ATree)
      requires t.Bin? && t.l.Bin? && t.l.r.Bin? && t.l.r.m in {LH, EH, RH} && Linked(c, t, node)
      modifies this`root, Repr`bf, Repr`parent, Repr`lchild, Repr`rchild
      ensures Linked(c, DoubleRight(t), t.l.r.n)
    {
      hide CRep, Rep;
      Peek(c, t, node);
      RotateDoubleRight(node, node.lchild, node.parent, c, t);
    }

    /** avl_left_balance, after an insertion made the left subtree two levels too high. */
    method LeftBalance(node: Node, ghost c: ACtx, ghost t: ATree) returns (ok: bool, ghost t': ATree)
      requires t.Bin? && Balanced(t.l) && Balanced(t.r) && Height(t.l) == Height(t.r) + 2 && Linked(c, t, node)
      modifies this`root, Repr`bf, Repr`parent, Repr`lchild, Repr`rchild
      ensures Linked(c, t', RootOf(t')) && InOrder(t') == InOrder(t)
      ensures ok <==> t.l.Bin? && t.l.m != EH
      ensures ok ==> Balanced(t') && Height(t') == Height(t) - 1
    {
      hide CRep, Rep, InOrder, Height, Balanced;
      LeftTooHigh(t);
      RotationsSame(t);
      FactorRange(t.l);
      Peek(c, t, node);
      var lchild := node.lchild;
      if lchild.bf == LH {
        LlBalance(node, c, t);
        return true, SingleRight(t);
      } else if lchild.bf == RH {
        LrBalance(node, c, t);
        return true, DoubleRight(t);
      }
      return false, t;
    }

    /** avl_delete_left_balance: the left subtree of `node` has become one level lower than the stored
        factor says.  `lower` tells whether the whole subtree has. */
    method DeleteLeftBalance(node: Node, ghost c: ACtx, ghost t: ATree) returns (lower: bool, ghost t': ATree)
      requires t.Bin? && Balanced(t.l) && Balanced(t.r) && t.m in {LH, EH, RH} && Height(t.l) == Height(t.r) + t.m - 1
      requires Linked(c, t, node)
      modifies this`root, Repr`bf, Repr`parent, Repr`lchild, Repr`rchild
      ensures Linked(c, t', RootOf(t')) && Balanced(t') && InOrder(t') == InOrder(t)
      ensures Height(t') == Over(Height(t.l) + 1, Height(t.r)) - (if lower then 1 else 0)
    {
      hide CRep, Rep, InOrder, Height, Balanced;
      Remarked(t);
      Peek(c, t, node);
      var parent := node.parent;
      if node.bf == LH {
        SetBf(node, EH, c, t);
        return true, Mark(t, EH);
      } else if node.bf == EH {
        SetBf(node, RH, c, t);
        return false, Mark(t, RH);
      }
      RightTooHigh(t);
      RotationsSame(t);
      FactorRange(t.r);
      var rchild := node.rchild;
      if rchild.bf == EH || rchild.bf == RH {
        if rchild.bf == EH {
          lower := false;
          SetTwoRight(node, rchild, RH, LH, c, t);
          LinkLeft(node, rchild, parent, c, Bin(t.n, RH, t.d, t.l, Mark(t.r, LH)));
        } else {
          lower := true;
          SetTwoRight(node, rchild, EH, EH, c, t);
          LinkLeft(node, rchild, parent, c, Bin(t.n, EH, t.d, t.l, Mark(t.r, EH)));
        }
        t' := SingleLeft(t);
      } else {
        lower := true;
        RotateDoubleLeft(node, rchild, parent, c, t);
        t' := DoubleLeft(t);
      }
    }

    /** avl_delete_right_balance: the right subtree of `node` has become one level lower than the stored
        factor says.  `lower` tells whether the whole subtree has. */
    method DeleteRightBalance(node: Node, ghost c: ACtx, ghost t: ATree) returns (lower: bool, ghost t': ATree)
      requires t.Bin? && Balanced(t.l) && Balanced(t.r) && t.m in {LH, EH, RH} && Height(t.l) == Height(t.r) + t.m + 1
      requires Linked(c, t, node)
      modifies this`root, Repr`bf, Repr`parent, Repr`lchild, Repr`rchild
      ensures Linked(c, t', RootOf(t')) && Balanced(t') && InOrder(t') == InOrder(t)
      ensures Height(t') == Over(Height(t.l), Height(t.r) + 1) - (if lower then 1 else 0)
    {
      hide CRep, Rep, InOrder, Height, Balanced;
      Remarked(t);
      Peek(c, t, node);
      var parent := node.parent;
      if node.bf == RH {
        SetBf(node, EH, c, t);
        return true, Mark(t, EH);
      } else if node.bf == EH {
        SetBf(node, LH, c, t);
        return false, Mark(t, LH);
      }
      LeftTooHigh(t);
      RotationsSame(t);
      FactorRange(t.l);
      var lchild := node.lchild;
      if lchild.bf == EH || lchild.bf == LH {
        if lchild.bf == EH {
          lower := false;
          SetTwoLeft(node, lchild, LH, RH, c, t);
          LinkRight(node, lchild, parent, c, Bin(t.n, LH, t.d, Mark(t.l, RH), t.r));
        } else {
          lower := true;
          SetTwoLeft(node, lchild, EH, EH, c, t);
          LinkRight(node, lchild, parent, c, Bin(t.n, EH, t.d, Mark(t.l, EH), t.r));
        }
        t' := SingleRight(t);
      } else {
        lower := true;
        RotateDoubleRight(node, lchild, parent, c, t);
        t' := DoubleRight(t);
      }
    }

    // ----- insertion

    method AddLeaf(parent: Node, left: bool, data: Data, ghost c: ACtx) returns (add: Node)
      requires !c.Top? && Linked(c, Leaf, null) && parent == c.n && (left <==> c.InL?)
      modifies this`Repr, parent`lchild, parent`rchild
      ensures fresh(add) && Repr == old(Repr) + {add}
      ensures Linked(c, Bin(add, EH, data, Leaf, Leaf), add)
    {
      add := new Node(parent, data);
      if left {
        parent.lchild := add;
      } else {
        parent.rchild := add;
      }
      Repr := Repr + {add};
    }

    /** What an insertion below a node reports: `taller` is set exactly when the subtree grew by one level. */
    ghost predicate InsertedIn(r: InsertResult, taller: bool, data: Data, t: ATree, t': ATree, a: seq<Data>,
        b: seq<Data>) {
      match r
      case NodeExist => t' == t && !taller && HasKey(Items(InOrder(t)), data, cmp)
      case Ok =>
        && Balanced(t') && Height(t') == Height(t) + (if taller then 1 else 0)
        && (taller && t.Bin? ==> t'.Bin? && t'.m != EH)
        && SplitsAt(InOrder(t), a, b, data, cmp) && InOrder(t') == a + [data] + b
    }

    /** _avl_insert. */
    method InsertInto(node: Node, data: Data, ghost c: ACtx, ghost t: ATree)
      returns (r: InsertResult, taller: bool, ghost t': ATree, ghost a: seq<Data>, ghost b: seq<Data>)
      requires t.Bin? && Linked(c, t, node) && Balanced(t) && Preorder(cmp) && Sorted(InOrder(t), cmp)
      modifies this`root, this`Repr, Repr
      ensures fresh(Repr - old(Repr)) && Linked(c, t', RootOf(t')) && InsertedIn(r, taller, data, t, t', a, b)
      decreases Height(t), 1
    {
      Peek(c, t, node);
      if cmp(data, node.data) == 0 {
        Found(Top, t);
        return NodeExist, false, t, [], [];
      } else if cmp(data, node.data) < 0 {
        r, taller, t', a, b := InsertLeft(node, data, c, t);
      } else {
        r, taller, t', a, b := InsertRight(node, data, c, t);
      }
    }

    /** The left subtree of `node` grew by one level, to `s`.  The rotation always finds a child that
        is not even. */
    method LeftGrew(node: Node, ghost c: ACtx, ghost t: ATree, ghost s: ATree) returns (taller: bool, ghost t': ATree)
      requires t.Bin? && Balanced(t) && Balanced(s) && Height(s) == Height(t.l) + 1
      requires s.Bin? && (t.l.Bin? ==> s.m != EH)
      requires Linked(c, Bin(t.n, t.m, t.d, s, t.r), node)
      modifies this`root, Repr`bf, Repr`parent, Repr`lchild, Repr`rchild
      ensures Linked(c, t', RootOf(t')) && Balanced(t') && Height(t') == Height(t) + (if taller then 1 else 0)
      ensures InOrder(t') == InOrder(Bin(t.n, t.m, t.d, s, t.r)) && (taller ==> t'.Bin? && t'.m != EH)
    {
      hide CRep, Rep, InOrder;
      Subtrees(t);
      GrownLeft(t, s, 1);
      t' := Bin(t.n, t.m, t.d, s, t.r);
      Peek(c, t', node);
      if node.bf == RH {
        SetBf(node, EH, c, t');
        return false, Mark(t', EH);
      } else if node.bf == EH {
        SetBf(node, LH, c, t');
        return true, Mark(t', LH);
      }
      var ok;
      ok, t' := LeftBalance(node, c, t');
      assert ok;
      taller := false;
    }

    /** avl_insert_left. */
    method InsertLeft(node: Node, data: Data, ghost c: ACtx, ghost t: ATree)
      returns (r: InsertResult, taller: bool, ghost t': ATree, ghost a: seq<Data>, ghost b: seq<Data>)
      requires t.Bin? && Linked(c, t, node) && Balanced(t) && Preorder(cmp) && Sorted(InOrder(t), cmp)
      requires cmp(data, t.d) < 0
      modifies this`root, this`Repr, Repr
      ensures fresh(Repr - old(Repr)) && Linked(c, t', RootOf(t')) && InsertedIn(r, taller, data, t, t', a, b)
      decreases Height(t), 0
    {
      hide CRep, Rep, InOrder, Balanced, Sorted, Preorder, SplitsAt, Height;
      Peek(c, t, node);
      Subtrees(t);
      SubtreesSorted(t, cmp);
      ghost var cc, s := InL(node, t.m, t.d, t.r, c), Leaf;
      Back(cc, t.l);
      if node.lchild == null {
        var add := AddLeaf(node, true, data, cc);
        s, r, taller := Bin(add, EH, data, Leaf, Leaf), Ok, true;
        LeafInserted(data, add, cmp);
        a, b := [], [];
      } else {
        r, taller, s, a, b := InsertInto(node.lchild, data, cc, t.l);
        if r != Ok {
          Up(cc, s, RootOf(s));
          Peek(c, t, node);
          KeyBelow(t, data, cmp);
          return r, taller, t, a, b;
        }
      }
      Up(cc, s, RootOf(s));
      t' := Bin(t.n, t.m, t.d, s, t.r);
      Peek(c, t', node);
      SplitLeft(t, a, b, data, cmp);
      GrownLeft(t, s, if taller then 1 else 0);
      if taller {
        taller, t' := LeftGrew(node, c, t, s);
      }
      return Ok, taller, t', a, b + [t.d] + InOrder(t.r);
    }

    /** The right subtree of `node` grew by one level, to `s`.  The rotation always finds a child that
        is not even. */
    method RightGrew(node: Node, ghost c: ACtx, ghost t: ATree, ghost s: ATree) returns (taller: bool, ghost t': ATree)
      requires t.Bin? && Balanced(t) && Balanced(s) && Height(s) == Height(t.r) + 1
      requires s.Bin? && (t.r.Bin? ==> s.m != EH)
      requires Linked(c, Bin(t.n, t.m, t.d, t.l, s), node)
      modifies this`root, Repr`bf, Repr`parent, Repr`lchild, Repr`rchild
      ensures Linked(c, t', RootOf(t')) && Balanced(t') && Height(t') == Height(t) + (if taller then 1 else 0)
      ensures InOrder(t') == InOrder(Bin(t.n, t.m, t.d, t.l, s)) && (taller ==> t'.Bin? && t'.m != EH)
    {
      hide CRep, Rep, InOrder;
      Subtrees(t);
      GrownRight(t, s, 1);
      t' := Bin(t.n, t.m, t.d, t.l, s);
      Peek(c, t', node);
      if node.bf == LH {
        SetBf(node, EH, c, t');
        return false, Mark(t', EH);
      } else if node.bf == EH {
        SetBf(node, RH, c, t');
        return true, Mark(t', RH);
      }
      var ok;
      ok, t' := RightBalance(node, c, t');
      assert ok;
      taller := false;
    }

    /** avl_insert_right. */
    method InsertRight(node: Node, data: Data, ghost c: ACtx, ghost t: ATree)
      returns (r: InsertResult, taller: bool, ghost t': ATree, ghost a: seq<Data>, ghost b: seq<Data>)
      requires t.Bin? && Linked(c, t, node) && Balanced(t) && Preorder(cmp) && Sorted(InOrder(t), cmp)
      requires cmp(data, t.d) > 0
      modifies this`root, this`Repr, Repr
      ensures fresh(Repr - old(Repr)) && Linked(c, t', RootOf(t')) && InsertedIn(r, taller, data, t, t', a, b)
      decreases Height(t), 0
    {
      hide CRep, Rep, InOrder, Balanced, Sorted, Preorder, SplitsAt, Height;
      Peek(c, t, node);
      Subtrees(t);
      SubtreesSorted(t, cmp);
      ghost var cc, s := InR(node, t.m, t.d, t.l, c), Leaf;
      Back(cc, t.r);
      if node.rchild == null {
        var add := AddLeaf(node, false, data, cc);
        s, r, taller := Bin(add, EH, data, Leaf, Leaf), Ok, true;
        LeafInserted(data, add, cmp);
        a, b := [], [];
      } else {
        r, taller, s, a, b := InsertInto(node.rchild, data, cc, t.r);
        if r != Ok {
          Up(cc, s, RootOf(s));
          Peek(c, t, node);
          KeyBelow(t, data, cmp);
          return r, taller, t, a, b;
        }
      }
      Up(cc, s, RootOf(s));
      t' := Bin(t.n, t.m, t.d, t.l, s);
      Peek(c, t', node);
      SplitRight(t, a, b, data, cmp);
      GrownRight(t, s, if taller then 1 else 0);
      if taller {
        taller, t' := RightGrew(node, c, t, s);
      }
      return Ok, taller, t', InOrder(t.l) + [t.d] + a, b;
    }

    // ----- deletion

    lemma {:induction false} UpAll(inner: ACtx, outer: ACtx, t: ATree, x: Node?)
      requires Linked(Append(inner, outer), t, x)
      ensures Linked(outer, Plug(inner, t), RootOf(Plug(inner, t)))
      decreases inner
    {
      hide CRep, Rep;
      Peek(Append(inner, outer), t, x);
      if !inner.Top? {
        Up(Append(inner, outer), t, x);
        UpAll(inner.up, outer, Join(inner, t), inner.n);
      }
    }

    lemma {:induction false} DownAll(inner: ACtx, outer: ACtx, t: ATree)
      requires Linked(outer, Plug(inner, t), RootOf(Plug(inner, t)))
      ensures Linked(Append(inner, outer), t, RootOf(t))
      decreases inner
    {
      hide CRep, Rep;
      if !inner.Top? {
        DownAll(inner.up, outer, Join(inner, t));
        Back(Append(inner, outer), t);
      }
    }

    method SetData(node: Node, data: Data, ghost c: ACtx, ghost t: ATree)
      requires t.Bin? && Linked(c, t, node)
      modifies Repr`data
      ensures Linked(c, t.(d := data), node)
    {
      node.data := data;
    }

    /** The data of `node`, which stands above the path `inner`, is replaced. */
    method SetDataAbove(node: Node, data: Data, x: Node, ghost c: ACtx, ghost t: ATree, ghost inner: ACtx,
        ghost s: ATree)
      requires t.Bin? && node == t.n && Linked(Append(inner, InL(t.n, t.m, t.d, t.r, c)), s, x)
      modifies Repr`data
      ensures Linked(Append(inner, InL(t.n, t.m, data, t.r, c)), s, x)
    {
      hide CRep, Rep;
      ghost var outer, outer' := InL(t.n, t.m, t.d, t.r, c), InL(t.n, t.m, data, t.r, c);
      Peek(Append(inner, outer), s, x);
      UpAll(inner, outer, s, x);
      Up(outer, Plug(inner, s), RootOf(Plug(inner, s)));
      SetData(node, data, c, Join(outer, Plug(inner, s)));
      Back(outer', Plug(inner, s));
      DownAll(inner, outer', s);
    }

    /** Cuts out a node that has no right subtree, from the left or right link of its parent. */
    method Unhook(prev: Node, parent: Node, left: bool, ghost c: ACtx, ghost t: ATree)
      requires t.Bin? && t.r.Leaf? && Linked(c, t, prev) && !c.Top? && parent == c.n && (left <==> c.InL?)
      modifies this`Repr, Repr`parent, Repr`lchild, Repr`rchild
      ensures Linked(c, t.l, RootOf(t.l)) && Repr == old(Repr) - {prev}
    {
      assert Rep(t.l, prev.lchild, prev);
      var x := prev.lchild;
      if left {
        parent.lchild := x;
      } else {
        parent.rchild := x;
      }
      if x != null {
        x.parent := parent;
      }
      Repr := Repr - {prev};
    }

    /** Along a path that only goes right, the first node is the left child of the node above it. */
    lemma FirstOnPath(inner: ACtx, outer: ACtx, t: ATree, x: Node)
      requires t.Bin? && Linked(Append(inner, outer), t, x) && outer.InL?
      ensures x.parent == Append(inner, outer).n
      ensures outer.n.lchild == x <==> inner.Top?
    {
      Peek(Append(inner, outer), t, x);
      UpAll(inner, outer, t, x);
      Up(outer, Plug(inner, t), RootOf(Plug(inner, t)));
      Peek(outer.up, Join(outer, Plug(inner, t)), outer.n);
      RootOnPath(inner, t);
      NodesOnPath(inner, outer);
    }

    static lemma {:induction false} RootOnPath(inner: ACtx, t: ATree)
      requires t.Bin?
      ensures Plug(inner, t).Bin?
      ensures if inner.Top? then Plug(inner, t) == t else Plug(inner, t).n in CNodes(inner)
      decreases inner
    {
      if !inner.Top? {
        RootOnPath(inner.up, Join(inner, t));
      }
    }

    static lemma NodesOnPath(inner: ACtx, outer: ACtx)
      ensures CNodes(inner) <= CNodes(Append(inner, outer))
    {
    }

    method TakeLast(node: Node, prev: Node, ghost c: ACtx, ghost t: ATree, ghost inner: ACtx, ghost sub: ATree)
      requires t.Bin? && node == t.n && Rightmost(inner) && sub.Bin? && sub.r.Leaf? && Balanced(sub)
      requires Linked(Append(inner, InL(t.n, t.m, t.d, t.r, c)), sub, prev)
      modifies this`Repr, Repr
      ensures Repr <= old(Repr) && Linked(Append(inner, InL(t.n, t.m, sub.d, t.r, c)), sub.l, RootOf(sub.l))
      ensures Balanced(sub.l) && InOrder(sub) == InOrder(sub.l) + [sub.d] && Height(sub.l) == Height(sub) - 1
    {
      hide CRep, Rep, InOrder, Height;
      ghost var outer := InL(t.n, t.m, sub.d, t.r, c);
      LastTaken(sub);
      Peek(Append(inner, InL(t.n, t.m, t.d, t.r, c)), sub, prev);
      SetDataAbove(node, prev.data, prev, c, t, inner, sub);
      FirstOnPath(inner, outer, sub, prev);
      if prev == node.lchild {
        Unhook(prev, node, true, Append(inner, outer), sub);
      } else {
        Unhook(prev, prev.parent, false, Append(inner, outer), sub);
      }
    }

    /** avl_replace_and_delete: the rightmost block below `prev` moves up into `node`, and its own node
        is cut out. */
    method ReplaceAndDelete(node: Node, prev: Node, ghost c: ACtx, ghost t: ATree, ghost inner: ACtx, ghost sub: ATree)
      returns (lower: bool, ghost s': ATree, ghost last: Data)
      requires t.Bin? && node == t.n && Rightmost(inner) && sub.Bin? && Balanced(sub)
      requires Linked(Append(inner, InL(t.n, t.m, t.d, t.r, c)), sub, prev)
      modifies this`root, this`Repr, Repr
      ensures Repr <= old(Repr) && Linked(Append(inner, InL(t.n, t.m, last, t.r, c)), s', RootOf(s'))
      ensures Balanced(s') && Height(s') == Height(sub) - (if lower then 1 else 0)
      ensures InOrder(sub) == InOrder(s') + [last]
      decreases Height(sub)
    {
      hide CRep, Rep, InOrder, Height, Balanced, Plug, CNodes, Nodes;
      ghost var outer := InL(t.n, t.m, t.d, t.r, c);
      Peek(Append(inner, outer), sub, prev);
      Subtrees(sub);
      if prev.rchild == null {
        TakeLast(node, prev, c, t, inner, sub);
        return true, sub.l, sub.d;
      }
      ghost var deeper := InR(sub.n, sub.m, sub.d, sub.l, inner);
      Back(Append(deeper, outer), sub.r);
      ghost var s;
      lower, s, last := ReplaceAndDelete(node, prev.rchild, c, t, deeper, sub.r);
      ghost var place := Append(inner, InL(t.n, t.m, last, t.r, c));
      Up(Append(deeper, InL(t.n, t.m, last, t.r, c)), s, RootOf(s));
      s' := Bin(sub.n, sub.m, sub.d, sub.l, s);
      ShrunkRight(sub, s, if lower then 1 else 0);
      LastDeeper(InOrder(sub.l), sub.d, InOrder(s), last);
      if lower {
        lower, s' := DeleteRightBalance(prev, place, s');
      }
    }

    /** What a deletion below a node reports: `lower` is set exactly when the subtree lost one level. */
    ghost predicate DeletedIn(lower: bool, data: Option<Data>, key: Data, t: ATree, t': ATree, a: seq<Data>,
        b: seq<Data>) {
      match data
      case None => t' == t && !lower && !HasKey(Items(InOrder(t)), key, cmp)
      case Some(d) =>
        && cmp(key, d) == 0 && Balanced(t') && Height(t') == Height(t) - (if lower then 1 else 0)
        && InOrder(t) == a + [d] + b && InOrder(t') == a + b
    }

    /** _avl_delete. */
    method DeleteFrom(node: Node, key: Data, ghost c: ACtx, ghost t: ATree)
      returns (lower: bool, data: Option<Data>, ghost t': ATree, ghost a: seq<Data>, ghost b: seq<Data>)
      requires t.Bin? && Linked(c, t, node) && Balanced(t) && Preorder(cmp) && Sorted(InOrder(t), cmp)
      modifies this`root, this`Repr, this`num, Repr
      ensures Repr <= old(Repr) && num == old(num) - (if data.Some? then 1 else 0)
      ensures Linked(c, t', RootOf(t')) && DeletedIn(lower, data, key, t, t', a, b)
      decreases Height(t), 1
    {
      hide CRep, Rep, InOrder, Height, Balanced, Sorted, Preorder;
      Peek(c, t, node);
      if cmp(key, node.data) < 0 {
        lower, data, t', a, b := DeleteLeft(node, key, c, t);
      } else if cmp(key, node.data) > 0 {
        lower, data, t', a, b := DeleteRight(node, key, c, t);
      } else {
        num := num - 1;
        data := Some(node.data);
        lower, t' := DeleteHere(node, c, t);
        a, b := InOrder(t.l), InOrder(t.r);
      }
    }

    /** The part of _avl_delete that has found the node. */
    method DeleteHere(node: Node, ghost c: ACtx, ghost t: ATree) returns (lower: bool, ghost t': ATree)
      requires t.Bin? && Linked(c, t, node) && Balanced(t)
      modifies this`root, this`Repr, Repr
      ensures Repr <= old(Repr) && Linked(c, t', RootOf(t')) && Balanced(t')
      ensures Height(t') == Height(t) - (if lower then 1 else 0)
      ensures InOrder(t) == InOrder(t.l) + [t.d] + InOrder(t.r) && InOrder(t') == InOrder(t.l) + InOrder(t.r)
    {
      hide CRep, Rep, InOrder, Height, Balanced;
      Peek(c, t, node);
      Subtrees(t);
      OneSide(t);
      if node.rchild == null {
        CutOut(node, node.lchild, c, t, t.l);
        return true, t.l;
      } else if node.lchild == null {
        CutOut(node, node.rchild, c, t, t.r);
        return true, t.r;
      }
      ghost var s, last;
      Back(InL(t.n, t.m, t.d, t.r, c), t.l);
      lower, s, last := ReplaceAndDelete(node, node.lchild, c, t, Top, t.l);
      Up(InL(t.n, t.m, last, t.r, c), s, RootOf(s));
      t' := Bin(t.n, t.m, last, s, t.r);
      ShrunkLeft(Bin(t.n, t.m, last, t.l, t.r), s, if lower then 1 else 0);
      SameButData(t, last);
      if lower {
        lower, t' := DeleteLeftBalance(node, c, t');
      }
    }

    method CutOut(node: Node, x: Node?, ghost c: ACtx, ghost t: ATree, ghost s: ATree)
      requires t.Bin? && Linked(c, t, node)
      requires (t.r.Leaf? && s == t.l && x == node.lchild) || (t.l.Leaf? && s == t.r && x == node.rchild)
      modifies this`root, this`Repr, Repr`parent, Repr`lchild, Repr`rchild
      ensures Linked(c, s, x) && Repr == old(Repr) - {node}
    {
      assert Rep(s, x, node);
      ReplaceChild(node.parent, node, x, c, s);
      Repr := Repr - {node};
    }

    /** The part of _avl_delete that goes left. */
    method DeleteLeft(node: Node, key: Data, ghost c: ACtx, ghost t: ATree)
      returns (lower: bool, data: Option<Data>, ghost t': ATree, ghost a: seq<Data>, ghost b: seq<Data>)
      requires t.Bin? && Linked(c, t, node) && Balanced(t) && Preorder(cmp) && Sorted(InOrder(t), cmp)
      requires cmp(key, t.d) < 0
      modifies this`root, this`Repr, this`num, Repr
      ensures Repr <= old(Repr) && num == old(num) - (if data.Some? then 1 else 0)
      ensures Linked(c, t', RootOf(t')) && DeletedIn(lower, data, key, t, t', a, b)
      decreases Height(t), 0
    {
      hide CRep, Rep, InOrder, Height, Balanced, Sorted, Preorder;
      Peek(c, t, node);
      Subtrees(t);
      SubtreesSorted(t, cmp);
      if node.lchild == null {
        NotInLeft(t, key, cmp);
        return false, None, t, [], [];
      }
      ghost var cc, s := InL(node, t.m, t.d, t.r, c), Leaf;
      Back(cc, t.l);
      lower, data, s, a, b := DeleteFrom(node.lchild, key, cc, t.l);
      Up(cc, s, RootOf(s));
      t' := Bin(t.n, t.m, t.d, s, t.r);
      if data.None? {
        NotInLeft(t, key, cmp);
        return lower, data, t, a, b;
      }
      GroupLeft(a, b, t.d, InOrder(t.r), data.value);
      ShrunkLeft(t, s, if lower then 1 else 0);
      a, b := a, b + [t.d] + InOrder(t.r);
      if lower {
        lower, t' := DeleteLeftBalance(node, c, t');
      }
    }

    /** The part of _avl_delete that goes right. */
    method DeleteRight(node: Node, key: Data, ghost c: ACtx, ghost t: ATree)
      returns (lower: bool, data: Option<Data>, ghost t': ATree, ghost a: seq<Data>, ghost b: seq<Data>)
      requires t.Bin? && Linked(c, t, node) && Balanced(t) && Preorder(cmp) && Sorted(InOrder(t), cmp)
      requires cmp(key, t.d) > 0
      modifies this`root, this`Repr, this`num, Repr
      ensures Repr <= old(Repr) && num == old(num) - (if data.Some? then 1 else 0)
      ensures Linked(c, t', RootOf(t')) && DeletedIn(lower, data, key, t, t', a, b)
      decreases Height(t), 0
    {
      hide CRep, Rep, InOrder, Height, Balanced, Sorted, Preorder;
      Peek(c, t, node);
      Subtrees(t);
      SubtreesSorted(t, cmp);
      if node.rchild == null {
        NotInRight(t, key, cmp);
        return false, None, t, [], [];
      }
      ghost var cc, s := InR(node, t.m, t.d, t.l, c), Leaf;
      Back(cc, t.r);
      lower, data, s, a, b := DeleteFrom(node.rchild, key, cc, t.r);
      Up(cc, s, RootOf(s));
      t' := Bin(t.n, t.m, t.d, t.l, s);
      if data.None? {
        NotInRight(t, key, cmp);
        return lower, data, t, a, b;
      }
      GroupRight(InOrder(t.l), t.d, a, b, data.value);
      ShrunkRight(t, s, if lower then 1 else 0);
      a, b := InOrder(t.l) + [t.d] + a, b;
      if lower {
        lower, t' := DeleteRightBalance(node, c, t');
      }
    }

    // ----- the interface

    ghost predicate Valid()
      reads this, Nodes(Shape)
    {
      && Linked(Top, Shape, root) && Balanced(Shape)
      && Preorder(cmp) && Sorted(InOrder(Shape), cmp) && num == |InOrder(Shape)|
    }

    /** The stored data blocks. */
    ghost function Contents(): set<Data>
      reads this
    {
      Items(InOrder(Shape))
    }

    method InsertFirst(data: Data)
      requires Valid() && root == null
      modifies this
      ensures Valid() && fresh(Repr - old(Repr))
      ensures old(Contents()) == {} && Contents() == {data} && num == old(num) + 1
    {
      Peek(Top, Shape, root);
      assert InOrder(Shape) == [];
      var add := new Node(null, data);
      num := 1;
      root := add;
      Repr := Repr + {add};
      Shape := Bin(add, EH, data, Leaf, Leaf);
      LeafInserted(data, add, cmp);
    }

    /** avl_insert; the allocator is taken not to fail. */
    method Insert(data: Data) returns (r: InsertResult)
      requires Valid()
      modifies this, Repr
      ensures Valid() && fresh(Repr - old(Repr))
      ensures r == if HasKey(old(Contents()), data, cmp) then NodeExist else Ok
      ensures r.Ok? ==> Contents() == old(Contents()) + {data} && num == old(num) + 1
      ensures r.NodeExist? ==> Shape == old(Shape) && Contents() == old(Contents()) && num == old(num)
    {
      Peek(Top, Shape, root);
      ghost var s, a, b;
      if root == null {
        InsertFirst(data);
        return Ok;
      }
      hide CRep, Rep, InOrder, Balanced;
      var taller;
      r, taller, s, a, b := InsertInto(root, data, Top, Shape);
      if r == Ok {
        num := num + 1;
        Inserted(a, data, b, cmp);
        NoKey(a, b, data, cmp);
      }
      Shape := s;
      Peek(Top, Shape, RootOf(Shape));
    }

    lemma IsKey(items: set<Data>, key: Data, d: Data)
      requires d in items && cmp(key, d) == 0
      ensures HasKey(items, key, cmp)
    {
    }

    lemma Empty(key: Data)
      requires Linked(Top, Shape, root)
      ensures root == null ==> !HasKey(Contents(), key, cmp)
    {
    }

    /** avl_delete. */
    method Delete(key: Data) returns (data: Option<Data>)
      requires Valid()
      modifies this, Repr
      ensures Valid() && Repr <= old(Repr)
      ensures data.None? <==> !HasKey(old(Contents()), key, cmp)
      ensures data.Some? ==> data.value in old(Contents()) && cmp(key, data.value) == 0
      ensures data.Some? ==> Contents() == old(Contents()) - {data.value} && num == old(num) - 1
      ensures data.None? ==> Shape == old(Shape) && Contents() == old(Contents()) && num == old(num)
    {
      hide CRep, Rep, InOrder, Balanced, Preorder, Sorted, HasKey;
      Empty(key);
      Peek(Top, Shape, root);
      if root == null {
        return None;
      }
      var lower;
      ghost var s, a, b;
      lower, data, s, a, b := DeleteFrom(root, key, Top, Shape);
      if data.Some? {
        assert data.value in InOrder(Shape);
        Removed(a, data.value, b, cmp);
        IsKey(Contents(), key, data.value);
      }
      Shape := s;
      Peek(Top, Shape, RootOf(Shape));
    }

    /** avl_query. */
    method Query(key: Data) returns (r: Option<Data>)
      requires Valid()
      ensures r.Some? ==> r.value in Contents() && cmp(key, r.value) == 0
      ensures r.None? ==> !HasKey(Contents(), key, cmp)
    {
      hide CRep, Rep;
      var node := root;
      ghost var c, t := Top, Shape;
      while node != null
        invariant Linked(c, t, node) && Plug(c, t) == Shape && Around(c, key, cmp)
        decreases Height(t)
      {
        Peek(c, t, node);
        if cmp(key, node.data) == 0 {
          Found(c, t);
          return Some(node.data);
        } else if cmp(key, node.data) < 0 {
          GoLeft(c, t, key, cmp);
          c, t := InL(node, t.m, t.d, t.r, c), t.l;
          Back(c, t);
          node := node.lchild;
        } else {
          GoRight(c, t, key, cmp);
          c, t := InR(node, t.m, t.d, t.l, c), t.r;
          Back(c, t);
          node := node.rchild;
        }
      }
      Peek(c, t, node);
      Missing(c, key, cmp);
      return None;
    }
  }
}
