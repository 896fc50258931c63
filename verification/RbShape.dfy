/** The colour rules of red-black trees, on tree values. */
module RbShape {
  import opened BinTree
  import opened Bits

  datatype Color = Red | Black

  ghost predicate IsRed<N>(t: Tree<N, Color>) {
    t.Bin? && t.m.Red?
  }

  /** Black nodes on the leftmost path; `Colored` says that every path has as many. */
  ghost function BlackHeight<N>(t: Tree<N, Color>): nat {
    match t
    case Leaf => 0
    case Bin(_, m, _, l, _) => BlackHeight(l) + if m.Black? then 1 else 0
  }

  /** No red node has a red child, and all paths to a leaf have the same number of black nodes. */
  ghost predicate Colored<N>(t: Tree<N, Color>) {
    match t
    case Leaf => true
    case Bin(_, m, _, l, r) =>
      && Colored(l) && Colored(r) && BlackHeight(l) == BlackHeight(r)
      && (m.Red? ==> !IsRed(l) && !IsRed(r))
  }

  ghost predicate RedBlack<N>(t: Tree<N, Color>) {
    Colored(t) && !IsRed(t)
  }

  /** A coloured subtree of black height `h` (with a red root only if `red`) completes `c`
      to a red-black tree. */
  ghost predicate Fits<N>(c: Ctx<N, Color>, h: nat, red: bool) {
    match c
    case Top => !red
    case InL(_, m, _, r, up) =>
      && Colored(r) && BlackHeight(r) == h && (m.Red? ==> !red && !IsRed(r))
      && Fits(up, h + if m.Black? then 1 else 0, m.Red?)
    case InR(_, m, _, l, up) =>
      && Colored(l) && BlackHeight(l) == h && (m.Red? ==> !red && !IsRed(l))
      && Fits(up, h + if m.Black? then 1 else 0, m.Red?)
  }

  lemma {:induction false} PlugColored<N>(c: Ctx<N, Color>, t: Tree<N, Color>)
    ensures RedBlack(Plug(c, t)) <==> Colored(t) && Fits(c, BlackHeight(t), IsRed(t))
    decreases c
  {
    match c
    case Top =>
    case InL(n, m, d, r, up) => PlugColored(up, Bin(n, m, d, t, r));
    case InR(n, m, d, l, up) => PlugColored(up, Bin(n, m, d, l, t));
  }

  /** Blackening the root of the hole never hurts a context. */
  lemma FitsBlack<N>(c: Ctx<N, Color>, h: nat, red: bool)
    requires Fits(c, h, red)
    ensures Fits(c, h, false)
  {
  }

  // ----- insertion: the subtree rooted at the grandparent after one repair

  ghost predicate Grand<N>(c: Ctx<N, Color>) {
    !c.Top? && !c.up.Top?
  }

  /** The other child of the grandparent. */
  ghost function Uncle<N>(c: Ctx<N, Color>): Tree<N, Color>
    requires Grand(c)
  {
    if c.up.InL? then c.up.r else c.up.l
  }

  /** Child and parent hang on different sides. */
  ghost predicate Inner<N>(c: Ctx<N, Color>) {
    Grand(c) && (c.InL? <==> c.up.InR?)
  }

  ghost function Recolored<N>(c: Ctx<N, Color>, t: Tree<N, Color>, top: Color): Tree<N, Color>
    requires Grand(c) && Uncle(c).Bin?
  {
    var p, u := Mark(Join(c, t), Black), Mark(Uncle(c), Black);
    if c.up.InL? then Bin(c.up.n, top, c.up.d, p, u) else Bin(c.up.n, top, c.up.d, u, p)
  }

  ghost function Rotated<N>(c: Ctx<N, Color>, t: Tree<N, Color>): Tree<N, Color>
    requires Grand(c)
  {
    var g := Mark(Join(c.up, Mark(Join(c, t), Black)), Red);
    if c.up.InL? then RotateRight(g) else RotateLeft(g)
  }

  /** The loop invariant of the repair: all rules hold, but for a red root of `t` below a red parent. */
  ghost predicate Repairing<N>(c: Ctx<N, Color>, t: Tree<N, Color>) {
    t.Bin? && Colored(t) && Fits(c, BlackHeight(t), false) && (IsRed(t) ==> !c.Top?)
  }

  lemma RedParent<N>(c: Ctx<N, Color>, t: Tree<N, Color>)
    requires Repairing(c, t) && IsRed(t)
    ensures c.m.Black? ==> RedBlack(Plug(c, t))
    ensures c.m.Red? ==> Grand(c) && c.up.m.Black? && Fits(c.up, BlackHeight(t), true)
    ensures c.m.Red? ==> Fits(c.up.up, BlackHeight(t) + 1, false)
  {
    PlugColored(c, t);
    assert c.m.Red? ==> Fits(c.up, BlackHeight(t), true);
  }

  lemma GrandUp<N>(c: Ctx<N, Color>, t: Tree<N, Color>)
    requires Grand(c)
    ensures Plug(c, t) == Plug(c.up.up, Join(c.up, Join(c, t)))
    ensures Depth(c) == Depth(c.up) + 1 == Depth(c.up.up) + 2
  {
    assert Plug(c, t) == Plug(c.up, Join(c, t));
  }

  lemma RecolorRepairs<N>(c: Ctx<N, Color>, t: Tree<N, Color>)
    requires Repairing(c, t) && IsRed(t) && Grand(c) && c.m.Red? && IsRed(Uncle(c))
    ensures var t' := Recolored(c, t, if c.up.up.Top? then Black else Red);
            Repairing(c.up.up, t') && InOrder(Plug(c.up.up, t')) == InOrder(Plug(c, t))
  {
    RedParent(c, t);
    GrandUp(c, t);
    SameWhole(c.up.up, Recolored(c, t, if c.up.up.Top? then Black else Red), Join(c.up, Join(c, t)));
    assert Colored(Mark(Join(c, t), Black)) && Colored(Mark(Uncle(c), Black));
  }

  lemma RotateRepairs<N>(c: Ctx<N, Color>, t: Tree<N, Color>)
    requires Repairing(c, t) && IsRed(t) && Grand(c) && c.m.Red? && !IsRed(Uncle(c))
    requires c.InL? <==> c.up.InL?
    ensures var t' := Rotated(c, t);
            Repairing(c.up.up, t') && !IsRed(t') && InOrder(Plug(c.up.up, t')) == InOrder(Plug(c, t))
  {
    RedParent(c, t);
    GrandUp(c, t);
    var g := Mark(Join(c.up, Mark(Join(c, t), Black)), Red);
    if c.up.InL? {
      RotateRightSame(g);
    } else {
      RotateLeftSame(g);
    }
    SameWhole(c.up.up, Rotated(c, t), Join(c.up, Join(c, t)));
  }

  /** A black subtree in place: the same whole, seen one level up. */
  lemma RepairedUp<N>(c: Ctx<N, Color>, t: Tree<N, Color>)
    requires Repairing(c, t) && !IsRed(t)
    ensures RedBlack(Plug(c, t))
    ensures !c.Top? ==> Repairing(c.up, Join(c, t))
  {
    PlugColored(c, t);
  }

  /** Turning an inner grandchild into an outer one: the parent becomes the new child. */
  lemma InnerRepairs<N>(c: Ctx<N, Color>, t: Tree<N, Color>)
    requires Repairing(c, t) && IsRed(t) && Grand(c) && c.m.Red?
    ensures c.InR? && c.up.InL? ==>
              var c', t' := InL(t.n, Red, t.d, t.r, c.up), Bin(c.n, Red, c.d, c.l, t.l);
              && Repairing(c', t') && IsRed(t') && Join(c', t') == RotateLeft(Join(c, t))
              && InOrder(Plug(c', t')) == InOrder(Plug(c, t))
    ensures c.InL? && c.up.InR? ==>
              var c', t' := InR(t.n, Red, t.d, t.l, c.up), Bin(c.n, Red, c.d, t.r, c.r);
              && Repairing(c', t') && IsRed(t') && Join(c', t') == RotateRight(Join(c, t))
              && InOrder(Plug(c', t')) == InOrder(Plug(c, t))
  {
    if c.InR? && c.up.InL? {
      RotateLeftSame(Join(c, t));
      SameWhole(c.up, RotateLeft(Join(c, t)), Join(c, t));
    } else if c.InL? && c.up.InR? {
      RotateRightSame(Join(c, t));
      SameWhole(c.up, RotateRight(Join(c, t)), Join(c, t));
    }
  }

  // ----- deletion: `t` misses one black node on every path

  /** The loop invariant of the repair after a deletion.  The root of `t` may be red with a red
      child: it is blackened as soon as it is seen. */
  ghost predicate Short<N>(c: Ctx<N, Color>, t: Tree<N, Color>) {
    && (t.Bin? ==> Colored(t.l) && Colored(t.r) && BlackHeight(t.l) == BlackHeight(t.r))
    && Fits(c, BlackHeight(t) + 1, false)
  }

  ghost function Brother<N>(c: Ctx<N, Color>): Tree<N, Color>
    requires !c.Top?
  {
    if c.InL? then c.r else c.l
  }

  /** The context with another tree on the brother's side. */
  ghost function WithBrother<N>(c: Ctx<N, Color>, b: Tree<N, Color>): Ctx<N, Color>
    requires !c.Top?
  {
    if c.InL? then c.(r := b) else c.(l := b)
  }

  ghost function Near<N>(c: Ctx<N, Color>): Tree<N, Color>
    requires !c.Top? && Brother(c).Bin?
  {
    if c.InL? then c.r.l else c.l.r
  }

  ghost function Far<N>(c: Ctx<N, Color>): Tree<N, Color>
    requires !c.Top? && Brother(c).Bin?
  {
    if c.InL? then c.r.r else c.l.l
  }

  lemma ShortEnds<N>(c: Ctx<N, Color>, t: Tree<N, Color>)
    requires Short(c, t) && (IsRed(t) || c.Top?)
    ensures t.Leaf? ==> RedBlack(Plug(c, t))
    ensures t.Bin? ==> RedBlack(Plug(c, Mark(t, Black))) && InOrder(Plug(c, Mark(t, Black))) == InOrder(Plug(c, t))
  {
    if t.Bin? {
      SameWhole(c, t, Mark(t, Black));
      PlugColored(c, Mark(t, Black));
    }
  }

  /** The brother of a short subtree is a real node, and so are its children if it is red. */
  lemma BrotherIsNode<N>(c: Ctx<N, Color>, t: Tree<N, Color>)
    requires Short(c, t) && !c.Top?
    ensures Brother(c).Bin? && Colored(Brother(c)) && BlackHeight(Brother(c)) == BlackHeight(t) + 1
    ensures IsRed(Brother(c)) ==> c.m.Black? && Near(c).Bin? && Near(c).m.Black?
    ensures Fits(c.up, BlackHeight(t) + 1 + if c.m.Black? then 1 else 0, c.m.Red?)
  {
  }

  /** The context of the short subtree after a red brother was rotated above its parent. */
  ghost function BelowBrother<N>(c: Ctx<N, Color>): Ctx<N, Color>
    requires !c.Top? && Brother(c).Bin?
  {
    var b := Brother(c);
    if c.InL? then InL(c.n, Red, c.d, b.l, InL(b.n, Black, b.d, b.r, c.up))
    else InR(c.n, Red, c.d, b.r, InR(b.n, Black, b.d, b.l, c.up))
  }

  lemma RedBrotherRotates<N>(c: Ctx<N, Color>, t: Tree<N, Color>)
    requires Short(c, t) && !c.Top? && IsRed(Brother(c))
    ensures Short(BelowBrother(c), t) && InOrder(Plug(BelowBrother(c), t)) == InOrder(Plug(c, t))
    ensures BelowBrother(c).m.Red? && Brother(BelowBrother(c)).Bin? && Brother(BelowBrother(c)).m.Black?
  {
    BrotherIsNode(c, t);
    var c1 := BelowBrother(c);
    assert Fits(c1.up, BlackHeight(t) + 1, true);
    assert Plug(c1, t) == Plug(c1.up, Join(c1, t)) == Plug(c.up, Join(c1.up, Join(c1, t)));
    if c.InL? {
      RotateLeftSame(Join(c, t));
    } else {
      RotateRightSame(Join(c, t));
    }
    SameWhole(c.up, Join(c, t), Join(c1.up, Join(c1, t)));
  }

  lemma BlackBrotherReddens<N>(c: Ctx<N, Color>, t: Tree<N, Color>)
    requires Short(c, t) && !IsRed(t) && !c.Top? && !IsRed(Brother(c))
    requires Brother(c).Bin? && !IsRed(Near(c)) && !IsRed(Far(c))
    ensures var c' := WithBrother(c, Mark(Brother(c), Red));
            Short(c.up, Join(c', t)) && InOrder(Plug(c.up, Join(c', t))) == InOrder(Plug(c, t))
  {
    BrotherIsNode(c, t);
    var c' := WithBrother(c, Mark(Brother(c), Red));
    assert Colored(Brother(c'));
    SameWhole(c.up, Join(c, t), Join(c', t));
  }

  /** A black brother whose near child is red, rotated so that its far child is red. */
  ghost function NearRotated<N>(c: Ctx<N, Color>): Tree<N, Color>
    requires !c.Top? && Brother(c).Bin? && Near(c).Bin?
  {
    if c.InL? then RotateRight(Bin(c.r.n, Red, c.r.d, Mark(c.r.l, Black), c.r.r))
    else RotateLeft(Bin(c.l.n, Red, c.l.d, c.l.l, Mark(c.l.r, Black)))
  }

  lemma NearRedRotates<N>(c: Ctx<N, Color>, t: Tree<N, Color>)
    requires Short(c, t) && !c.Top? && !IsRed(Brother(c)) && Brother(c).Bin?
    requires IsRed(Near(c)) && !IsRed(Far(c))
    ensures var c' := WithBrother(c, NearRotated(c));
            Short(c', t) && !IsRed(Brother(c')) && Brother(c').Bin? && IsRed(Far(c'))
            && InOrder(Plug(c', t)) == InOrder(Plug(c, t))
  {
    BrotherIsNode(c, t);
    var c' := WithBrother(c, NearRotated(c));
    assert Colored(Near(c)) && Colored(Far(c)) && BlackHeight(Far(c)) == BlackHeight(t);
    assert InOrder(Mark(Near(c), Black)) == InOrder(Near(c));
    if c.InL? {
      assert Colored(Bin(c.r.n, Red, c.r.d, c.r.l.r, c.r.r));
      RotateRightSame(Bin(c.r.n, Red, c.r.d, Mark(c.r.l, Black), c.r.r));
    } else {
      assert Colored(Bin(c.l.n, Red, c.l.d, c.l.l, c.l.r.l));
      RotateLeftSame(Bin(c.l.n, Red, c.l.d, c.l.l, Mark(c.l.r, Black)));
    }
    assert Colored(Brother(c'));
    SameWhole(c.up, Join(c, t), Join(c', t));
  }

  /** The last rotation: the far red child pays for the missing black node. */
  ghost function FarRotated<N>(c: Ctx<N, Color>, t: Tree<N, Color>): Tree<N, Color>
    requires !c.Top? && Brother(c).Bin? && Far(c).Bin?
  {
    if c.InL?
    then RotateLeft(Bin(c.n, Black, c.d, t, Bin(c.r.n, c.m, c.r.d, c.r.l, Mark(c.r.r, Black))))
    else RotateRight(Bin(c.n, Black, c.d, Bin(c.l.n, c.m, c.l.d, Mark(c.l.l, Black), c.l.r), t))
  }

  lemma FarRedFinishes<N>(c: Ctx<N, Color>, t: Tree<N, Color>)
    requires Short(c, t) && !IsRed(t) && !c.Top? && !IsRed(Brother(c)) && Brother(c).Bin? && IsRed(Far(c))
    ensures RedBlack(Plug(c.up, FarRotated(c, t))) && Short(Top, Plug(c.up, FarRotated(c, t)))
    ensures InOrder(Plug(c.up, FarRotated(c, t))) == InOrder(Plug(c, t))
  {
    BrotherIsNode(c, t);
    assert Colored(Near(c)) && Colored(Far(c)) && BlackHeight(Near(c)) == BlackHeight(t);
    assert InOrder(Mark(Far(c), Black)) == InOrder(Far(c));
    assert Colored(Mark(Far(c), Black));
    if c.InL? {
      assert Colored(Bin(c.n, Black, c.d, t, c.r.l));
      RotateLeftSame(Bin(c.n, Black, c.d, t, Bin(c.r.n, c.m, c.r.d, c.r.l, Mark(c.r.r, Black))));
    } else {
      assert Colored(Bin(c.n, Black, c.d, c.l.r, t));
      RotateRightSame(Bin(c.n, Black, c.d, Bin(c.l.n, c.m, c.l.d, Mark(c.l.l, Black), c.l.r), t));
    }
    assert Colored(FarRotated(c, t));
    PlugColored(c.up, FarRotated(c, t));
    SameWhole(c.up, Join(c, t), FarRotated(c, t));
  }

  /** The colour rules do not look at the stored data. */
  lemma {:induction false} FitsData<N>(inner: Ctx<N, Color>, outer: Ctx<N, Color>, d: Data, h: nat, red: bool)
    requires !outer.Top? && Fits(Append(inner, outer), h, red)
    ensures Fits(Append(inner, CData(outer, d)), h, red)
    decreases inner
  {
    if !inner.Top? {
      FitsData(inner.up, outer, d, h + if inner.m.Black? then 1 else 0, inner.m.Red?);
    }
  }

  /** Taking out a node with one subtree `s`: harmless if it was red, otherwise `s` is short. */
  lemma Spliced<N>(c: Ctx<N, Color>, t: Tree<N, Color>, s: Tree<N, Color>)
    requires t.Bin? && (s == t.l || s == t.r)
    requires Colored(t) && Fits(c, BlackHeight(t), IsRed(t))
    ensures t.m.Red? ==> RedBlack(Plug(c, s))
    ensures t.m.Black? ==> Short(c, s)
  {
    assert BlackHeight(s) == BlackHeight(t.l);
    if t.m.Red? {
      FitsBlack(c, BlackHeight(t), true);
      PlugColored(c, s);
    }
  }

  /** The successor's place in the whole, once its data has moved up. */
  lemma SuccessorFits<N>(c: Ctx<N, Color>, t: Tree<N, Color>, inner: Ctx<N, Color>, sub: Tree<N, Color>)
    requires t.Bin? && t.r == Plug(inner, sub) && sub.Bin? && RedBlack(Plug(c, t))
    ensures var place := Append(inner, InR(t.n, t.m, sub.d, t.l, c));
            && (sub.m.Red? ==> RedBlack(Plug(place, sub.r)))
            && (sub.m.Black? ==> Short(place, sub.r))
  {
    var outer := InR(t.n, t.m, t.d, t.l, c);
    PlugAppend(inner, outer, sub);
    PlugColored(Append(inner, outer), sub);
    FitsData(inner, outer, sub.d, BlackHeight(sub), IsRed(sub));
    Spliced(Append(inner, CData(outer, sub.d)), sub, sub.r);
  }

  // ----- what the colour rules say about heights

  lemma {:induction false} HeightBound<N>(t: Tree<N, Color>)
    requires Colored(t)
    ensures Height(t) <= 2 * BlackHeight(t) + if IsRed(t) then 1 else 0
    ensures Pow2(BlackHeight(t)) <= |InOrder(t)| + 1
  {
    if t.Bin? {
      HeightBound(t.l);
      HeightBound(t.r);
    }
  }

  /** Beside an empty subtree there is at most one red leaf node.  The walk relies on it. */
  lemma Shallow<N>(c: Ctx<N, Color>, t: Tree<N, Color>)
    requires RedBlack(Plug(c, t)) && !c.Top? && Brother(c).Leaf?
    ensures Height(t) <= 1
  {
    PlugColored(c, t);
    HeightBound(t);
  }

  /** Fewer than 2^64 nodes: every node is less than 129 levels deep. */
  lemma DepthBound<N>(c: Ctx<N, Color>, t: Tree<N, Color>)
    requires RedBlack(Plug(c, t)) && |InOrder(Plug(c, t))| < 0x1_0000_0000_0000_0000
    ensures |Path(c)| + Height(t) <= 128
  {
    var whole := Plug(c, t);
    PathLength(c, t);
    HeightBound(whole);
    Pow2At64();
    if BlackHeight(whole) >= 65 {
      assert Pow2(65) == 2 * Pow2(64);
      Pow2Monotone(65, BlackHeight(whole));
    }
  }
}
