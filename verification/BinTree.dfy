/** Binary search trees as values, shared by the red-black and the AVL tree.

    A tree value carries, beside the shape, the heap node `n` that realises each vertex, the
    balancing mark `m` (a colour or a balance factor) and the stored data block `d`.  A `Ctx` is
    the part of a tree around one subtree, so that a walk up or down a tree of heap nodes is a
    walk through (context, subtree) pairs. */
module BinTree {

  import opened Orders

  /** The caller's data blocks; a key to search for is one too.  Only the caller's comparison looks
      into them. */
  type Data(0, ==, !new)

  type Order = (Data, Data) -> int

  /** What an insertion returns. */
  datatype InsertResult = Ok | NodeExist

  datatype Tree<N, M> =
    | Leaf
    | Bin(n: N, m: M, d: Data, l: Tree<N, M>, r: Tree<N, M>)

  /** The surroundings of a subtree: which way it hangs from its parent, and the parent's other side. */
  datatype Ctx<N, M> =
    | Top
    | InL(n: N, m: M, d: Data, r: Tree<N, M>, up: Ctx<N, M>)
    | InR(n: N, m: M, d: Data, l: Tree<N, M>, up: Ctx<N, M>)

  ghost function Plug<N, M>(c: Ctx<N, M>, t: Tree<N, M>): Tree<N, M>
    decreases c
  {
    match c
    case Top => t
    case InL(n, m, d, r, up) => Plug(up, Bin(n, m, d, t, r))
    case InR(n, m, d, l, up) => Plug(up, Bin(n, m, d, l, t))
  }

  /** One step up: the subtree rooted at the parent of the hole. */
  ghost function Join<N, M>(c: Ctx<N, M>, t: Tree<N, M>): (j: Tree<N, M>)
    requires !c.Top?
    ensures j.Bin?
  {
    if c.InL? then Bin(c.n, c.m, c.d, t, c.r) else Bin(c.n, c.m, c.d, c.l, t)
  }

  ghost function CMark<N, M>(c: Ctx<N, M>, m: M): Ctx<N, M>
    requires !c.Top?
  {
    c.(m := m)
  }

  ghost function CData<N, M>(c: Ctx<N, M>, d: Data): Ctx<N, M>
    requires !c.Top?
  {
    if c.InL? then InL(c.n, c.m, d, c.r, c.up) else InR(c.n, c.m, d, c.l, c.up)
  }

  ghost function Mark<N, M>(t: Tree<N, M>, m: M): Tree<N, M>
    requires t.Bin?
  {
    t.(m := m)
  }

  ghost function Nodes<N, M>(t: Tree<N, M>): set<N> {
    match t
    case Leaf => {}
    case Bin(n, _, _, l, r) => {n} + Nodes(l) + Nodes(r)
  }

  ghost function CNodes<N, M>(c: Ctx<N, M>): set<N> {
    match c
    case Top => {}
    case InL(n, _, _, r, up) => {n} + Nodes(r) + CNodes(up)
    case InR(n, _, _, l, up) => {n} + Nodes(l) + CNodes(up)
  }

  ghost function InOrder<N, M>(t: Tree<N, M>): seq<Data> {
    match t
    case Leaf => []
    case Bin(_, _, d, l, r) => InOrder(l) + [d] + InOrder(r)
  }

  /** What an in-order walk meets before the hole of a context. */
  ghost function Pre<N, M>(c: Ctx<N, M>): seq<Data> {
    match c
    case Top => []
    case InL(_, _, _, _, up) => Pre(up)
    case InR(_, _, d, l, up) => Pre(up) + InOrder(l) + [d]
  }

  /** What an in-order walk meets after the hole of a context. */
  ghost function Post<N, M>(c: Ctx<N, M>): seq<Data> {
    match c
    case Top => []
    case InL(_, _, d, r, up) => [d] + InOrder(r) + Post(up)
    case InR(_, _, _, _, up) => Post(up)
  }

  ghost function Depth<N, M>(c: Ctx<N, M>): nat {
    match c
    case Top => 0
    case InL(_, _, _, _, up) => 1 + Depth(up)
    case InR(_, _, _, _, up) => 1 + Depth(up)
  }

  ghost function Height<N, M>(t: Tree<N, M>): nat {
    match t
    case Leaf => 0
    case Bin(_, _, _, l, r) => 1 + if Height(l) < Height(r) then Height(r) else Height(l)
  }

  ghost function RotateRight<N, M>(t: Tree<N, M>): Tree<N, M>
    requires t.Bin? && t.l.Bin?
  {
    t.l.(r := t.(l := t.l.r))
  }

  ghost function RotateLeft<N, M>(t: Tree<N, M>): Tree<N, M>
    requires t.Bin? && t.r.Bin?
  {
    t.r.(l := t.(r := t.r.l))
  }

  lemma Assoc<T>(a: seq<T>, b: seq<T>, c: seq<T>, d: seq<T>)
    ensures a + (b + c) + d == a + b + (c + d)
  {
  }

  lemma Regroup<T>(a: seq<T>, x: T, b: seq<T>, y: T, c: seq<T>)
    ensures a + [x] + (b + [y] + c) == (a + [x] + b) + [y] + c
  {
  }

  lemma {:induction false} PlugInOrder<N, M>(c: Ctx<N, M>, t: Tree<N, M>)
    ensures InOrder(Plug(c, t)) == Pre(c) + InOrder(t) + Post(c)
    decreases c
  {
    match c
    case Top =>
    case InL(n, m, d, r, up) =>
      PlugInOrder(up, Bin(n, m, d, t, r));
      Assoc(Pre(up), InOrder(t), [d] + InOrder(r), Post(up));
    case InR(n, m, d, l, up) =>
      PlugInOrder(up, Bin(n, m, d, l, t));
      Assoc(Pre(up), InOrder(l) + [d], InOrder(t), Post(up));
  }

  lemma {:induction false} PlugNodes<N, M>(c: Ctx<N, M>, t: Tree<N, M>)
    ensures Nodes(Plug(c, t)) == CNodes(c) + Nodes(t)
    decreases c
  {
    match c
    case Top =>
    case InL(n, m, d, r, up) => PlugNodes(up, Bin(n, m, d, t, r));
    case InR(n, m, d, l, up) => PlugNodes(up, Bin(n, m, d, l, t));
  }

  lemma RotateRightSame<N, M>(t: Tree<N, M>)
    requires t.Bin? && t.l.Bin?
    ensures InOrder(RotateRight(t)) == InOrder(t)
    ensures Nodes(RotateRight(t)) == Nodes(t)
  {
    Regroup(InOrder(t.l.l), t.l.d, InOrder(t.l.r), t.d, InOrder(t.r));
  }

  lemma RotateLeftSame<N, M>(t: Tree<N, M>)
    requires t.Bin? && t.r.Bin?
    ensures InOrder(RotateLeft(t)) == InOrder(t)
    ensures Nodes(RotateLeft(t)) == Nodes(t)
  {
    Regroup(InOrder(t.l), t.d, InOrder(t.r.l), t.r.d, InOrder(t.r.r));
  }

  lemma PlugBin<N, M>(c: Ctx<N, M>, t: Tree<N, M>)
    requires t.Bin?
    ensures Plug(c, t).Bin?
  {
    PlugInOrder(c, t);
  }

  lemma PlugLeaf<N, M>(c: Ctx<N, M>)
    ensures InOrder(Plug(c, Leaf)) == Pre(c) + Post(c)
  {
    PlugInOrder(c, Leaf);
    assert Pre(c) + [] + Post(c) == Pre(c) + Post(c);
  }

  /** Rearranging a subtree without touching its in-order sequence leaves that of the whole alone. */
  lemma SameWhole<N, M>(c: Ctx<N, M>, t: Tree<N, M>, t': Tree<N, M>)
    requires InOrder(t) == InOrder(t')
    ensures InOrder(Plug(c, t)) == InOrder(Plug(c, t'))
  {
    PlugInOrder(c, t);
    PlugInOrder(c, t');
  }

  /** The search-tree order, read off the in-order sequence. */
  ghost predicate Sorted(s: seq<Data>, cmp: Order) {
    forall i, j :: 0 <= i < j < |s| ==> cmp(s[i], s[j]) < 0
  }

  ghost predicate AllBelow(s: seq<Data>, k: Data, cmp: Order) {
    forall i :: 0 <= i < |s| ==> cmp(s[i], k) < 0
  }

  ghost predicate AllAbove(s: seq<Data>, k: Data, cmp: Order) {
    forall i :: 0 <= i < |s| ==> cmp(k, s[i]) < 0
  }

  ghost function Items(s: seq<Data>): set<Data> {
    set d | d in s
  }

  /** Some item has the same key as k. */
  ghost predicate HasKey(items: set<Data>, k: Data, cmp: Order) {
    exists d :: d in items && cmp(k, d) == 0
  }

  // ----- searching: everything before the hole is below the key, everything after it above

  ghost predicate Around<N, M>(c: Ctx<N, M>, k: Data, cmp: Order) {
    AllBelow(Pre(c), k, cmp) && AllAbove(Post(c), k, cmp)
  }

  lemma SortedParts(a: seq<Data>, b: seq<Data>, d: Data, e: seq<Data>, f: seq<Data>, cmp: Order)
    requires Sorted(a + (b + [d] + e) + f, cmp)
    ensures AllBelow(b, d, cmp) && AllAbove(e, d, cmp)
  {
    var s := a + (b + [d] + e) + f;
    var n := |a| + |b|;
    assert s[n] == d;
    assert forall i :: 0 <= i < |b| ==> b[i] == s[|a| + i];
    assert forall i :: 0 <= i < |e| ==> e[i] == s[n + 1 + i];
  }

  /** What is above a key is above a smaller one too. */
  lemma AboveToo(s: seq<Data>, d: Data, k: Data, cmp: Order)
    requires Preorder(cmp) && AllAbove(s, d, cmp) && cmp(k, d) < 0
    ensures AllAbove([d] + s, k, cmp)
  {
    hide Preorder;
    forall i | 0 <= i < |[d] + s| ensures cmp(k, ([d] + s)[i]) < 0 {
      if i > 0 { Transitive(cmp, k, d, s[i - 1]); }
    }
  }

  lemma BelowToo(s: seq<Data>, d: Data, k: Data, cmp: Order)
    requires Preorder(cmp) && AllBelow(s, d, cmp) && cmp(k, d) > 0
    ensures AllBelow(s + [d], k, cmp)
  {
    hide Preorder;
    Flip(cmp, k, d);
    forall i | 0 <= i < |s + [d]| ensures cmp((s + [d])[i], k) < 0 {
      if i < |s| { Transitive(cmp, s[i], d, k); }
    }
  }

  lemma GoLeft<N, M>(c: Ctx<N, M>, t: Tree<N, M>, k: Data, cmp: Order)
    requires Preorder(cmp)
    requires t.Bin? && Sorted(InOrder(Plug(c, t)), cmp) && Around(c, k, cmp) && cmp(k, t.d) < 0
    ensures Around(InL(t.n, t.m, t.d, t.r, c), k, cmp)
  {
    hide Preorder;
    PlugInOrder(c, t);
    SortedParts(Pre(c), InOrder(t.l), t.d, InOrder(t.r), Post(c), cmp);
    AboveToo(InOrder(t.r), t.d, k, cmp);
  }

  lemma GoRight<N, M>(c: Ctx<N, M>, t: Tree<N, M>, k: Data, cmp: Order)
    requires Preorder(cmp)
    requires t.Bin? && Sorted(InOrder(Plug(c, t)), cmp) && Around(c, k, cmp) && cmp(k, t.d) > 0
    ensures Around(InR(t.n, t.m, t.d, t.l, c), k, cmp)
  {
    hide Preorder;
    PlugInOrder(c, t);
    SortedParts(Pre(c), InOrder(t.l), t.d, InOrder(t.r), Post(c), cmp);
    BelowToo(InOrder(t.l), t.d, k, cmp);
    assert Pre(InR(t.n, t.m, t.d, t.l, c)) == Pre(c) + (InOrder(t.l) + [t.d]);
  }

  lemma Found<N, M>(c: Ctx<N, M>, t: Tree<N, M>)
    requires t.Bin?
    ensures t.d in Items(InOrder(Plug(c, t)))
  {
    PlugInOrder(c, t);
  }

  lemma Missing<N, M>(c: Ctx<N, M>, k: Data, cmp: Order)
    requires Preorder(cmp) && Around(c, k, cmp)
    ensures !HasKey(Items(InOrder(Plug(c, Leaf))), k, cmp)
  {
    PlugInOrder(c, Leaf);
    NoKey(Pre(c), Post(c), k, cmp);
    assert Pre(c) + InOrder<N, M>(Leaf) + Post(c) == Pre(c) + Post(c);
  }

  lemma NoKey(a: seq<Data>, b: seq<Data>, k: Data, cmp: Order)
    requires Preorder(cmp) && AllBelow(a, k, cmp) && AllAbove(b, k, cmp)
    ensures !HasKey(Items(a + b), k, cmp)
  {
    hide Preorder;
    forall d | d in Items(a + b) ensures cmp(k, d) != 0 {
      Flip(cmp, k, d);
    }
  }

  /** Putting a block where its key belongs. */
  lemma Inserted(a: seq<Data>, d: Data, b: seq<Data>, cmp: Order)
    requires Sorted(a + b, cmp) && AllBelow(a, d, cmp) && AllAbove(b, d, cmp)
    ensures Sorted(a + [d] + b, cmp) && Items(a + [d] + b) == Items(a + b) + {d}
  {
    var s, s' := a + b, a + [d] + b;
    assert forall i :: 0 <= i < |a| ==> s'[i] == s[i];
    assert forall i :: |a| < i < |s'| ==> s'[i] == s[i - 1];
  }

  lemma Removed(a: seq<Data>, d: Data, b: seq<Data>, cmp: Order)
    requires Preorder(cmp) && Sorted(a + [d] + b, cmp)
    ensures Sorted(a + b, cmp) && Items(a + b) == Items(a + [d] + b) - {d}
  {
    hide Preorder;
    var s, s' := a + [d] + b, a + b;
    assert forall i :: 0 <= i < |a| ==> s'[i] == s[i];
    assert forall i :: |a| <= i < |s'| ==> s'[i] == s[i + 1];
    assert s[|a|] == d;
    Flip(cmp, d, d);
  }

  // ----- contexts inside contexts

  /** The hole of `inner`, which itself sits in the hole of `outer`. */
  ghost function Append<N, M>(inner: Ctx<N, M>, outer: Ctx<N, M>): Ctx<N, M> {
    match inner
    case Top => outer
    case InL(n, m, d, r, up) => InL(n, m, d, r, Append(up, outer))
    case InR(n, m, d, l, up) => InR(n, m, d, l, Append(up, outer))
  }

  lemma {:induction false} PlugAppend<N, M>(inner: Ctx<N, M>, outer: Ctx<N, M>, t: Tree<N, M>)
    ensures Plug(Append(inner, outer), t) == Plug(outer, Plug(inner, t))
    decreases inner
  {
    if !inner.Top? {
      PlugAppend(inner.up, outer, Join(inner, t));
    }
  }

  /** A path that only goes left has nothing before its hole. */
  ghost predicate Leftmost<N, M>(c: Ctx<N, M>) {
    c.Top? || (c.InL? && Leftmost(c.up))
  }

  lemma LeftmostPre<N, M>(c: Ctx<N, M>)
    requires Leftmost(c)
    ensures Pre(c) == []
  {
  }

  /** What is left of the whole when the root block of `t` is taken out. */
  ghost function Without<N, M>(c: Ctx<N, M>, t: Tree<N, M>): seq<Data>
    requires t.Bin?
  {
    (Pre(c) + InOrder(t.l)) + (InOrder(t.r) + Post(c))
  }

  lemma WithoutOne<N, M>(c: Ctx<N, M>, t: Tree<N, M>, cmp: Order)
    requires t.Bin? && Preorder(cmp) && Sorted(InOrder(Plug(c, t)), cmp)
    ensures Sorted(Without(c, t), cmp) && |Without(c, t)| == |InOrder(Plug(c, t))| - 1
    ensures Items(Without(c, t)) == Items(InOrder(Plug(c, t))) - {t.d}
  {
    PlugInOrder(c, t);
    Regroup4(Pre(c), InOrder(t.l), t.d, InOrder(t.r), Post(c));
    Removed(Pre(c) + InOrder(t.l), t.d, InOrder(t.r) + Post(c), cmp);
  }

  lemma Regroup4<T>(a: seq<T>, b: seq<T>, x: T, e: seq<T>, f: seq<T>)
    ensures a + (b + [x] + e) + f == (a + b) + [x] + (e + f)
  {
  }

  lemma SkipEmpty<T>(a: seq<T>, b: seq<T>, e: seq<T>)
    ensures a + b + e == (a + []) + (b + e) == (a + b) + ([] + e)
  {
  }

  /** A root with one empty side leaves the other side behind. */
  lemma OnlySide<N, M>(c: Ctx<N, M>, t: Tree<N, M>, s: Tree<N, M>)
    requires t.Bin? && ((t.l.Leaf? && s == t.r) || (t.r.Leaf? && s == t.l))
    ensures InOrder(Plug(c, s)) == Without(c, t)
  {
    PlugInOrder(c, s);
    SkipEmpty(Pre(c), InOrder(s), Post(c));
  }

  /** The end of a leftmost path holds the first block. */
  lemma LeftmostFirst<N, M>(inner: Ctx<N, M>, sub: Tree<N, M>)
    requires Leftmost(inner) && sub.Bin? && sub.l.Leaf?
    ensures InOrder(Plug(inner, sub)) == [sub.d] + InOrder(Plug(inner, sub.r))
  {
    PlugInOrder(inner, sub);
    PlugInOrder(inner, sub.r);
    LeftmostPre(inner);
    HeadOut(sub.d, InOrder(sub.r), Post(inner));
  }

  lemma HeadOut<T>(x: T, b: seq<T>, e: seq<T>)
    ensures [] + ([] + [x] + b) + e == [x] + ([] + b + e)
  {
  }

  lemma HeadAcross<T>(a: seq<T>, l: seq<T>, x: T, b: seq<T>, e: seq<T>)
    ensures (a + l + [x]) + b + e == (a + l) + (([x] + b) + e)
  {
  }

  /** The successor `sub.d`, first of the right subtree, takes the place of the root block. */
  lemma SuccessorMoves<N, M>(c: Ctx<N, M>, t: Tree<N, M>, inner: Ctx<N, M>, sub: Tree<N, M>)
    requires t.Bin? && t.r == Plug(inner, sub) && Leftmost(inner) && sub.Bin? && sub.l.Leaf?
    ensures InOrder(Plug(Append(inner, InR(t.n, t.m, sub.d, t.l, c)), sub.r)) == Without(c, t)
  {
    var outer := InR(t.n, t.m, sub.d, t.l, c);
    PlugAppend(inner, outer, sub.r);
    PlugInOrder(outer, Plug(inner, sub.r));
    LeftmostFirst(inner, sub);
    HeadAcross(Pre(c), InOrder(t.l), sub.d, InOrder(Plug(inner, sub.r)), Post(c));
  }

  /** The nodes from the root down to the parent of the hole. */
  ghost function Path<N, M>(c: Ctx<N, M>): seq<N> {
    if c.Top? then [] else Path(c.up) + [c.n]
  }

  lemma {:induction false} PathLength<N, M>(c: Ctx<N, M>, t: Tree<N, M>)
    ensures |Path(c)| == Depth(c) && Depth(c) + Height(t) <= Height(Plug(c, t))
    decreases c
  {
    if !c.Top? {
      PathLength(c.up, Join(c, t));
    }
  }

  /** A subtree that was walked to the end, seen from its parent. */
  lemma WalkedUp<N, M>(c: Ctx<N, M>, t: Tree<N, M>)
    requires c.InR? && t.Bin?
    ensures Pre(c) + InOrder(t) == Pre(c.up) + InOrder(Join(c, t))
    ensures Plug(c.up, Join(c, t)) == Plug(c, t) && Depth(c.up) < Depth(c) && Height(Join(c, t)) >= 2
  {
    AssocRight(Pre(c.up), InOrder(c.l), c.d, InOrder(t));
  }

  /** From a walked left subtree across its parent into the right one. */
  lemma WalkedAcross<N, M>(c: Ctx<N, M>, t: Tree<N, M>)
    requires c.InL?
    ensures Pre(InR(c.n, c.m, c.d, t, c.up)) == Pre(c) + InOrder(t) + [c.d]
    ensures c.r.Leaf? ==> Pre(c) + InOrder(t) + [c.d] == Pre(c.up) + InOrder(Join(c, t))
  {
    AssocRight(Pre(c.up), InOrder(t), c.d, []);
  }

  lemma WalkedAll<N, M>(c: Ctx<N, M>, t: Tree<N, M>)
    ensures c.Top? ==> Pre(c) + InOrder(t) == InOrder(Plug(c, t))
  {
  }

  lemma WalkedNode<N, M>(c: Ctx<N, M>, t: Tree<N, M>)
    requires t.Bin? && t.l.Leaf?
    ensures Pre(InR(t.n, t.m, t.d, t.l, c)) == Pre(c) + [t.d]
    ensures t.r.Leaf? ==> InOrder(t) == [t.d]
  {
  }

  lemma AssocRight<T>(a: seq<T>, b: seq<T>, x: T, e: seq<T>)
    ensures (a + b + [x]) + e == a + (b + [x] + e)
  {
  }

  // ----- children before their parent

  ghost function PostOrder<N, M>(t: Tree<N, M>): seq<Data> {
    match t
    case Leaf => []
    case Bin(_, _, d, l, r) => PostOrder(l) + PostOrder(r) + [d]
  }

  /** What comes before a subtree in this order. */
  ghost function Before<N, M>(c: Ctx<N, M>): seq<Data> {
    match c
    case Top => []
    case InL(_, _, _, _, up) => Before(up)
    case InR(_, _, _, l, up) => Before(up) + PostOrder(l)
  }

  /** With the last child done, the parent is next. */
  lemma PostUp<N, M>(c: Ctx<N, M>, t: Tree<N, M>)
    requires c.InR? || (c.InL? && c.r.Leaf?)
    ensures Before(c) + PostOrder(t) + [c.d] == Before(c.up) + PostOrder(Join(c, t))
  {
    if c.InR? {
      assert Before(c.up) + PostOrder(c.l) + PostOrder(t) + [c.d] ==
        Before(c.up) + (PostOrder(c.l) + PostOrder(t) + [c.d]);
    } else {
      assert PostOrder(t) + [] == PostOrder(t);
      assert Before(c.up) + PostOrder(t) + [c.d] == Before(c.up) + (PostOrder(t) + [c.d]);
    }
  }

  lemma {:induction false} BeforeFits<N, M>(c: Ctx<N, M>, t: Tree<N, M>)
    ensures |Before(c)| + |PostOrder(t)| <= |PostOrder(Plug(c, t))|
    decreases c
  {
    if !c.Top? {
      BeforeFits(c.up, Join(c, t));
    }
  }

  /** Both orders list the same blocks. */
  lemma {:induction false} PostOrderSame<N, M>(t: Tree<N, M>)
    ensures multiset(PostOrder(t)) == multiset(InOrder(t))
  {
    if t.Bin? {
      PostOrderSame(t.l);
      PostOrderSame(t.r);
    }
  }
}
