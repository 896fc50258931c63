/** The height rules of AVL trees, on tree values marked with their balance factors. */
module AvlShape {
  import opened BinTree
  import opened Orders

  const LH := 1
  const EH := 0
  const RH := -1

  /** Every stored factor is the left height minus the right height, and at most one off zero. */
  ghost predicate Balanced<N>(t: Tree<N, int>) {
    match t
    case Leaf => true
    case Bin(_, m, _, l, r) =>
      Balanced(l) && Balanced(r) && m == Height(l) - Height(r) && -1 <= m <= 1
  }

  /** The height of a tree over two subtrees of the given heights. */
  ghost function Over(hl: int, hr: int): int {
    1 + if hl < hr then hr else hl
  }

  lemma FactorRange<N>(t: Tree<N, int>)
    requires Balanced(t)
    ensures t.Bin? ==> t.m in {LH, EH, RH}
    ensures t.Bin? && t.l.Bin? ==> t.l.m in {LH, EH, RH}
    ensures t.Bin? && t.r.Bin? ==> t.r.m in {LH, EH, RH}
  {
  }

  // ----- single rotations

  ghost function SingleLeft<N>(t: Tree<N, int>): Tree<N, int>
    requires t.Bin? && t.r.Bin?
  {
    if t.r.m == EH then RotateLeft(Bin(t.n, RH, t.d, t.l, Mark(t.r, LH)))
    else RotateLeft(Bin(t.n, EH, t.d, t.l, Mark(t.r, EH)))
  }

  ghost function SingleRight<N>(t: Tree<N, int>): Tree<N, int>
    requires t.Bin? && t.l.Bin?
  {
    if t.l.m == EH then RotateRight(Bin(t.n, LH, t.d, Mark(t.l, RH), t.r))
    else RotateRight(Bin(t.n, EH, t.d, Mark(t.l, EH), t.r))
  }

  // ----- double rotations: the inner grandchild becomes the root

  ghost function DoubleLeft<N>(t: Tree<N, int>): Tree<N, int>
    requires t.Bin? && t.r.Bin? && t.r.l.Bin?
  {
    var b := t.r.l.m;
    Bin(t.r.l.n, EH, t.r.l.d,
        Bin(t.n, if b == RH then LH else EH, t.d, t.l, t.r.l.l),
        Bin(t.r.n, if b == LH then RH else EH, t.r.d, t.r.l.r, t.r.r))
  }

  ghost function DoubleRight<N>(t: Tree<N, int>): Tree<N, int>
    requires t.Bin? && t.l.Bin? && t.l.r.Bin?
  {
    var b := t.l.r.m;
    Bin(t.l.r.n, EH, t.l.r.d,
        Bin(t.l.n, if b == RH then LH else EH, t.l.d, t.l.l, t.l.r.l),
        Bin(t.n, if b == LH then RH else EH, t.d, t.l.r.r, t.r))
  }

  /** A right subtree two levels too high: one rotation repairs it, and the height drops unless the
      right child was even. */
  lemma RightTooHigh<N>(t: Tree<N, int>)
    requires t.Bin? && Balanced(t.l) && Balanced(t.r) && Height(t.r) == Height(t.l) + 2
    ensures t.r.Bin?
    ensures t.r.m != LH ==>
      Balanced(SingleLeft(t)) && Height(SingleLeft(t)) == Height(t) - (if t.r.m == EH then 0 else 1)
    ensures t.r.m == LH ==> t.r.l.Bin? && Balanced(DoubleLeft(t)) && Height(DoubleLeft(t)) == Height(t) - 1
  {
  }

  lemma LeftTooHigh<N>(t: Tree<N, int>)
    requires t.Bin? && Balanced(t.l) && Balanced(t.r) && Height(t.l) == Height(t.r) + 2
    ensures t.l.Bin?
    ensures t.l.m != RH ==>
      Balanced(SingleRight(t)) && Height(SingleRight(t)) == Height(t) - (if t.l.m == EH then 0 else 1)
    ensures t.l.m == RH ==> t.l.r.Bin? && Balanced(DoubleRight(t)) && Height(DoubleRight(t)) == Height(t) - 1
  {
  }

  lemma RotationsSame<N>(t: Tree<N, int>)
    requires t.Bin?
    ensures t.r.Bin? ==> InOrder(SingleLeft(t)) == InOrder(t)
    ensures t.l.Bin? ==> InOrder(SingleRight(t)) == InOrder(t)
    ensures t.r.Bin? && t.r.l.Bin? ==> InOrder(DoubleLeft(t)) == InOrder(t)
    ensures t.l.Bin? && t.l.r.Bin? ==> InOrder(DoubleRight(t)) == InOrder(t)
  {
    if t.r.Bin? {
      Regroup(InOrder(t.l), t.d, InOrder(t.r.l), t.r.d, InOrder(t.r.r));
      if t.r.l.Bin? {
        Regroup5(InOrder(t.l), t.d, InOrder(t.r.l.l), t.r.l.d, InOrder(t.r.l.r), t.r.d, InOrder(t.r.r));
      }
    }
    if t.l.Bin? {
      Regroup(InOrder(t.l.l), t.l.d, InOrder(t.l.r), t.d, InOrder(t.r));
      if t.l.r.Bin? {
        Regroup5(InOrder(t.l.l), t.l.d, InOrder(t.l.r.l), t.l.r.d, InOrder(t.l.r.r), t.d, InOrder(t.r));
      }
    }
  }

  lemma Regroup5<T>(a: seq<T>, x: T, b: seq<T>, y: T, c: seq<T>, z: T, d: seq<T>)
    ensures (a + [x] + b) + [y] + (c + [z] + d) == a + [x] + ((b + [y] + c) + [z] + d)
    ensures (a + [x] + b) + [y] + (c + [z] + d) == (a + [x] + (b + [y] + c)) + [z] + d
  {
  }

  // ----- one block more or less in a subtree

  /** `s` is `a` and `b` around the place of `key`. */
  ghost predicate SplitsAt(s: seq<Data>, a: seq<Data>, b: seq<Data>, key: Data, cmp: Order) {
    s == a + b && AllBelow(a, key, cmp) && AllAbove(b, key, cmp)
  }

  lemma GroupLeft<T>(a: seq<T>, b: seq<T>, x: T, r: seq<T>, y: T)
    ensures a + (b + [x] + r) == (a + b) + [x] + r
    ensures a + [y] + (b + [x] + r) == (a + [y] + b) + [x] + r
  {
  }

  lemma GroupRight<T>(l: seq<T>, x: T, a: seq<T>, b: seq<T>, y: T)
    ensures (l + [x] + a) + b == l + [x] + (a + b)
    ensures (l + [x] + a) + [y] + b == l + [x] + (a + [y] + b)
  {
  }

  lemma AboveJoined(b: seq<Data>, x: Data, r: seq<Data>, key: Data, cmp: Order)
    requires AllAbove(b, key, cmp) && AllAbove(r, x, cmp) && cmp(key, x) < 0 && Preorder(cmp)
    ensures AllAbove(b + [x] + r, key, cmp)
  {
    AboveToo(r, x, key, cmp);
    assert b + [x] + r == b + ([x] + r);
  }

  lemma BelowJoined(l: seq<Data>, x: Data, a: seq<Data>, key: Data, cmp: Order)
    requires AllBelow(a, key, cmp) && AllBelow(l, x, cmp) && cmp(key, x) > 0 && Preorder(cmp)
    ensures AllBelow(l + [x] + a, key, cmp)
  {
    BelowToo(l, x, key, cmp);
  }

  lemma SplitLeft<N, M>(t: Tree<N, M>, a: seq<Data>, b: seq<Data>, d: Data, cmp: Order)
    requires t.Bin? && Sorted(InOrder(t), cmp) && SplitsAt(InOrder(t.l), a, b, d, cmp) && cmp(d, t.d) < 0
    requires Preorder(cmp)
    ensures SplitsAt(InOrder(t), a, b + [t.d] + InOrder(t.r), d, cmp)
    ensures a + [d] + (b + [t.d] + InOrder(t.r)) == (a + [d] + b) + [t.d] + InOrder(t.r)
  {
    SubtreesSorted(t, cmp);
    GroupLeft(a, b, t.d, InOrder(t.r), d);
    AboveJoined(b, t.d, InOrder(t.r), d, cmp);
  }

  lemma SplitRight<N, M>(t: Tree<N, M>, a: seq<Data>, b: seq<Data>, d: Data, cmp: Order)
    requires t.Bin? && Sorted(InOrder(t), cmp) && SplitsAt(InOrder(t.r), a, b, d, cmp) && cmp(d, t.d) > 0
    requires Preorder(cmp)
    ensures SplitsAt(InOrder(t), InOrder(t.l) + [t.d] + a, b, d, cmp)
    ensures (InOrder(t.l) + [t.d] + a) + [d] + b == InOrder(t.l) + [t.d] + (a + [d] + b)
  {
    SubtreesSorted(t, cmp);
    GroupRight(InOrder(t.l), t.d, a, b, d);
    BelowJoined(InOrder(t.l), t.d, a, d, cmp);
  }

  lemma SubtreesSorted<N, M>(t: Tree<N, M>, cmp: Order)
    requires t.Bin? && Sorted(InOrder(t), cmp)
    ensures Sorted(InOrder(t.l), cmp) && Sorted(InOrder(t.r), cmp)
    ensures AllBelow(InOrder(t.l), t.d, cmp) && AllAbove(InOrder(t.r), t.d, cmp)
  {
    var s, n := InOrder(t), |InOrder(t.l)|;
    assert forall i :: 0 <= i < n ==> InOrder(t.l)[i] == s[i];
    assert forall i :: 0 <= i < |InOrder(t.r)| ==> InOrder(t.r)[i] == s[n + 1 + i];
    assert s[n] == t.d;
  }

  lemma Subtrees<N>(t: Tree<N, int>)
    requires t.Bin? && Balanced(t)
    ensures Balanced(t.l) && Balanced(t.r) && t.m == Height(t.l) - Height(t.r) && t.m in {LH, EH, RH}
    ensures Height(t) == Over(Height(t.l), Height(t.r))
  {
  }

  lemma KeyBelow<N, M>(t: Tree<N, M>, key: Data, cmp: Order)
    requires t.Bin?
    ensures HasKey(Items(InOrder(t.l)), key, cmp) || HasKey(Items(InOrder(t.r)), key, cmp) ==>
      HasKey(Items(InOrder(t)), key, cmp)
  {
    if d :| d in Items(InOrder(t.l)) + Items(InOrder(t.r)) && cmp(key, d) == 0 {
      assert d in InOrder(t);
    }
  }

  lemma LeafInserted<N>(d: Data, n: N, cmp: Order)
    ensures var leaf := Bin(n, EH, d, Leaf, Leaf);
            Balanced(leaf) && Height(leaf) == 1 && InOrder(leaf) == [d] == [] + [d] + []
    ensures InOrder<N, int>(Leaf) == [] && SplitsAt([], [], [], d, cmp) && Height<N, int>(Leaf) == 0
  {
  }

  /** The node above a left subtree `s` that grew by `dh` levels. */
  lemma GrownLeft<N>(t: Tree<N, int>, s: Tree<N, int>, dh: nat)
    requires t.Bin? && Balanced(t) && Balanced(s) && Height(s) == Height(t.l) + dh && dh <= 1
    ensures var t' := Bin(t.n, t.m, t.d, s, t.r);
            && InOrder(t') == InOrder(s) + [t.d] + InOrder(t.r)
            && (dh == 0 ==> Balanced(t') && Height(t') == Height(t))
            && (dh == 1 && t.m == RH ==> Balanced(Mark(t', EH)) && Height(Mark(t', EH)) == Height(t))
            && (dh == 1 && t.m == EH ==> Balanced(Mark(t', LH)) && Height(Mark(t', LH)) == Height(t) + 1)
            && (dh == 1 && t.m == LH ==> Height(s) == Height(t.r) + 2 && Height(t') == Height(t) + 1)
            && InOrder(Mark(t', EH)) == InOrder(t') && InOrder(Mark(t', LH)) == InOrder(t')
  {
  }

  lemma GrownRight<N>(t: Tree<N, int>, s: Tree<N, int>, dh: nat)
    requires t.Bin? && Balanced(t) && Balanced(s) && Height(s) == Height(t.r) + dh && dh <= 1
    ensures var t' := Bin(t.n, t.m, t.d, t.l, s);
            && InOrder(t') == InOrder(t.l) + [t.d] + InOrder(s)
            && (dh == 0 ==> Balanced(t') && Height(t') == Height(t))
            && (dh == 1 && t.m == LH ==> Balanced(Mark(t', EH)) && Height(Mark(t', EH)) == Height(t))
            && (dh == 1 && t.m == EH ==> Balanced(Mark(t', RH)) && Height(Mark(t', RH)) == Height(t) + 1)
            && (dh == 1 && t.m == RH ==> Height(s) == Height(t.l) + 2 && Height(t') == Height(t) + 1)
            && InOrder(Mark(t', EH)) == InOrder(t') && InOrder(Mark(t', RH)) == InOrder(t')
  {
  }

  ghost predicate Rightmost<N, M>(c: Ctx<N, M>) {
    c.Top? || (c.InR? && Rightmost(c.up))
  }

  lemma LastTaken<N>(t: Tree<N, int>)
    requires t.Bin? && t.r.Leaf? && Balanced(t)
    ensures InOrder(t) == InOrder(t.l) + [t.d] && Height(t.l) == Height(t) - 1
  {
  }

  lemma LastDeeper<T>(l: seq<T>, x: T, s: seq<T>, last: T)
    ensures l + [x] + (s + [last]) == (l + [x] + s) + [last]
  {
  }

  /** The node above a left subtree `s` that shrank by `dh` levels. */
  lemma ShrunkLeft<N>(t: Tree<N, int>, s: Tree<N, int>, dh: nat)
    requires t.Bin? && Balanced(t) && Balanced(s) && Height(s) == Height(t.l) - dh && dh <= 1
    ensures var t' := Bin(t.n, t.m, t.d, s, t.r);
            && InOrder(t') == InOrder(s) + [t.d] + InOrder(t.r) && InOrder(t) == InOrder(t.l) + [t.d] + InOrder(t.r)
            && (dh == 0 ==> Balanced(t') && Height(t') == Height(t))
            && (dh == 1 ==> Height(s) == Height(t.r) + t.m - 1 && Height(t) == Over(Height(s) + 1, Height(t.r)))
  {
  }

  lemma ShrunkRight<N>(t: Tree<N, int>, s: Tree<N, int>, dh: nat)
    requires t.Bin? && Balanced(t) && Balanced(s) && Height(s) == Height(t.r) - dh && dh <= 1
    ensures var t' := Bin(t.n, t.m, t.d, t.l, s);
            && InOrder(t') == InOrder(t.l) + [t.d] + InOrder(s) && InOrder(t) == InOrder(t.l) + [t.d] + InOrder(t.r)
            && (dh == 0 ==> Balanced(t') && Height(t') == Height(t))
            && (dh == 1 ==> Height(t.l) == Height(s) + t.m + 1 && Height(t) == Over(Height(t.l), Height(s) + 1))
  {
  }

  /** A new factor alone, after one side lost a level. */
  lemma Remarked<N>(t: Tree<N, int>)
    requires t.Bin? && Balanced(t.l) && Balanced(t.r)
    ensures forall m :: InOrder(Mark(t, m)) == InOrder(t) && Height(Mark(t, m)) == Over(Height(t.l), Height(t.r))
    ensures Height(t) == Over(Height(t.l), Height(t.r))
    ensures forall m :: -1 <= m <= 1 && m == Height(t.l) - Height(t.r) ==> Balanced(Mark(t, m))
  {
  }

  /** A key that is not in the subtree on its side is not there at all. */
  lemma NotInLeft<N, M>(t: Tree<N, M>, key: Data, cmp: Order)
    requires t.Bin? && Preorder(cmp) && Sorted(InOrder(t), cmp) && cmp(key, t.d) < 0
    requires t.l.Leaf? || !HasKey(Items(InOrder(t.l)), key, cmp)
    ensures !HasKey(Items(InOrder(t)), key, cmp)
  {
    hide InOrder, HasKey, Items, Sorted, Preorder;
    SubtreesSorted(t, cmp);
    Halves(t, key, cmp);
    AboveToo(InOrder(t.r), t.d, key, cmp);
    OnlyLeft(InOrder(t.l), [t.d] + InOrder(t.r), key, cmp);
  }

  lemma NotInRight<N, M>(t: Tree<N, M>, key: Data, cmp: Order)
    requires t.Bin? && Preorder(cmp) && Sorted(InOrder(t), cmp) && cmp(key, t.d) > 0
    requires t.r.Leaf? || !HasKey(Items(InOrder(t.r)), key, cmp)
    ensures !HasKey(Items(InOrder(t)), key, cmp)
  {
    hide InOrder, HasKey, Items, Sorted, Preorder;
    SubtreesSorted(t, cmp);
    Halves(t, key, cmp);
    BelowToo(InOrder(t.l), t.d, key, cmp);
    OnlyRight(InOrder(t.l) + [t.d], InOrder(t.r), key, cmp);
  }

  lemma Halves<N, M>(t: Tree<N, M>, key: Data, cmp: Order)
    requires t.Bin?
    ensures InOrder(t) == InOrder(t.l) + ([t.d] + InOrder(t.r)) == InOrder(t.l) + [t.d] + InOrder(t.r)
    ensures t.l.Leaf? ==> !HasKey(Items(InOrder(t.l)), key, cmp)
    ensures t.r.Leaf? ==> !HasKey(Items(InOrder(t.r)), key, cmp)
  {
  }

  lemma OnlyLeft(a: seq<Data>, b: seq<Data>, key: Data, cmp: Order)
    requires Preorder(cmp) && AllAbove(b, key, cmp) && !HasKey(Items(a), key, cmp)
    ensures !HasKey(Items(a + b), key, cmp)
  {
    NoKey([], b, key, cmp);
    assert [] + b == b;
  }

  lemma OnlyRight(a: seq<Data>, b: seq<Data>, key: Data, cmp: Order)
    requires Preorder(cmp) && AllBelow(a, key, cmp) && !HasKey(Items(b), key, cmp)
    ensures !HasKey(Items(a + b), key, cmp)
  {
    NoKey(a, [], key, cmp);
    assert a + [] == a;
  }

  lemma OneSide<N>(t: Tree<N, int>)
    requires t.Bin? && Balanced(t)
    ensures InOrder(t) == InOrder(t.l) + [t.d] + InOrder(t.r)
    ensures t.r.Leaf? ==> InOrder(t.l) == InOrder(t.l) + InOrder(t.r) && Height(t.l) == Height(t) - 1
    ensures t.l.Leaf? ==> InOrder(t.r) == InOrder(t.l) + InOrder(t.r) && Height(t.r) == Height(t) - 1
  {
  }

  lemma SameButData<N>(t: Tree<N, int>, d: Data)
    requires t.Bin? && Balanced(t)
    ensures Balanced(Bin(t.n, t.m, d, t.l, t.r)) && Height(Bin(t.n, t.m, d, t.l, t.r)) == Height(t)
  {
  }
}
